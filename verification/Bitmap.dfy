/** Bitmaps of 32-bit words: single bits, word-wise scans and first-fit allocation of intervals. */
module BitmapModule {
  import opened Machine

  const BLC: nat := 32

  // ---- bits of a word ----

  function Bit(w: nat, k: nat): bool {
    if k == 0 then w % 2 == 1 else Bit(w / 2, k - 1)
  }

  /** __builtin_ctz, undefined on zero. */
  function Ctz(w: nat): (k: nat)
    requires w > 0
    ensures Bit(w, k) && forall j :: 0 <= j < k ==> !Bit(w, j)
  {
    if w % 2 == 1 then 0
    else
      var k := Ctz(w / 2);
      CtzShift(w, k);
      k + 1
  }

  lemma CtzShift(w: nat, k: nat)
    requires w % 2 == 0 && forall j :: 0 <= j < k ==> !Bit(w / 2, j)
    ensures forall j :: 0 <= j < k + 1 ==> !Bit(w, j)
  {
    forall j | 0 <= j < k + 1 ensures !Bit(w, j) {
      assert j > 0 ==> !Bit(w / 2, j - 1);
    }
  }

  lemma {:induction false} BitBound(w: nat, n: nat, k: nat)
    requires w < Pow2(n) && Bit(w, k)
    ensures k < n
  {
    if n == 0 {
      ZeroBits(k);
    } else if k > 0 {
      BitBound(w / 2, n - 1, k - 1);
    }
  }

  lemma {:induction false} ZeroBits(k: nat)
    ensures !Bit(0, k)
  {
    if k > 0 {
      ZeroBits(k - 1);
    }
  }

  /** `w & (1 << k)` tests bit k. */
  lemma {:induction false} AndTestsBit(w: nat, k: nat)
    ensures And(w, Pow2(k)) != 0 <==> Bit(w, k)
  {
    if w == 0 {
      ZeroBits(k);
    } else if k > 0 {
      AndTestsBit(w / 2, k - 1);
    } else {
      assert And(w, 1) == 2 * And(w / 2, 0) + if w % 2 == 1 then 1 else 0;
    }
  }

  /** `w | (1 << k)` sets bit k. */
  lemma {:induction false} OrSetsBit(w: nat, k: nat, n: nat, j: nat)
    requires w < Pow2(n) && k < n
    ensures Or(w, Pow2(k)) < Pow2(n)
    ensures Bit(Or(w, Pow2(k)), j) <==> j == k || Bit(w, j)
  {
    if w == 0 {
      SingleBit(k, j);
      ZeroBits(j);
      Pow2Monotone(k + 1, n);
    } else if k > 0 {
      OrSetsBit(w / 2, k - 1, n - 1, if j > 0 then j - 1 else 0);
      OrHalves(w, Pow2(k));
    } else {
      OrHalves(w, 1);
    }
  }

  lemma OrHalves(x: nat, y: nat)
    requires x > 0 && y > 0
    ensures Or(x, y) / 2 == Or(x / 2, y / 2) && (Or(x, y) % 2 == 1 <==> x % 2 == 1 || y % 2 == 1)
  {
  }

  lemma AndHalves(x: nat, y: nat)
    ensures And(x, y) / 2 == And(x / 2, y / 2) && (And(x, y) % 2 == 1 <==> x % 2 == 1 && y % 2 == 1)
  {
  }

  lemma {:induction false} SingleBit(k: nat, j: nat)
    ensures Bit(Pow2(k), j) <==> j == k
  {
    if k > 0 && j > 0 {
      SingleBit(k - 1, j - 1);
    } else if j > 0 {
      ZeroBits(j - 1);
    }
  }

  /** `w & ~(1 << k)` clears bit k. */
  lemma {:induction false} AndClearsBit(w: nat, k: nat, n: nat, j: nat)
    requires w < Pow2(n) && k < n
    ensures Pow2(k) < Pow2(n) && And(w, Pow2(n) - 1 - Pow2(k)) <= w
    ensures Bit(And(w, Pow2(n) - 1 - Pow2(k)), j) <==> j != k && Bit(w, j)
  {
    hide And;
    Pow2Monotone(k + 1, n);
    var m := Pow2(n) - 1 - Pow2(k);
    AndHalves(w, m);
    if k > 0 {
      AndClearsBit(w / 2, k - 1, n - 1, if j > 0 then j - 1 else 0);
      assert m / 2 == Pow2(n - 1) - 1 - Pow2(k - 1) && m % 2 == 1;
    } else {
      assert m / 2 == Pow2(n - 1) - 1 && m % 2 == 0;
      AndAllOnes(w / 2, n - 1);
    }
  }

  /** `~w` flips every bit. */
  lemma {:induction false} NotFlipsBit(w: nat, n: nat, j: nat)
    requires w < Pow2(n) && j < n
    ensures Bit(Pow2(n) - 1 - w, j) <==> !Bit(w, j)
  {
    HalfComplement(Pow2(n - 1), w);
    if j > 0 {
      NotFlipsBit(w / 2, n - 1, j - 1);
    }
  }

  lemma HalfComplement(p: nat, w: nat)
    requires w < 2 * p
    ensures (2 * p - 1 - w) / 2 == p - 1 - w / 2 && (2 * p - 1 - w) % 2 == 1 - w % 2
  {
  }

  // ---- bits of a buffer ----

  /** Bit i of a sequence of 32-bit words, least significant bit first: `i >> 5` and `i & 31` are quotient and
      remainder. */
  function BitAt(words: seq<uint32>, i: nat): bool
    requires i < BLC * |words|
  {
    Bit(words[i / BLC], i % BLC)
  }

  lemma SetBitWord(w: uint32, k: nat)
    requires k < BLC
    ensures Pow2(k) < TWO_32 && Or(w, Pow2(k)) < TWO_32
    ensures forall j: nat {:trigger Bit(Or(w, Pow2(k)), j)} :: Bit(Or(w, Pow2(k)), j) <==> j == k || Bit(w, j)
  {
    Pow2Values();
    Pow2Monotone(k + 1, 32);
    forall j: nat {:trigger Bit(Or(w, Pow2(k)), j)} ensures Bit(Or(w, Pow2(k)), j) <==> j == k || Bit(w, j) {
      OrSetsBit(w, k, 32, j);
    }
    OrSetsBit(w, k, 32, 0);
  }

  lemma ClearBitWord(w: uint32, k: nat)
    requires k < BLC
    ensures Pow2(k) < TWO_32 && And(w, Not32(Pow2(k))) < TWO_32
    ensures forall j: nat {:trigger Bit(And(w, Not32(Pow2(k))), j)} :: Bit(And(w, Not32(Pow2(k))), j) <==>
      j != k && Bit(w, j)
  {
    Pow2Values();
    Pow2Monotone(k + 1, 32);
    forall j: nat {:trigger Bit(And(w, Not32(Pow2(k))), j)}
      ensures Bit(And(w, Not32(Pow2(k))), j) <==> j != k && Bit(w, j)
    {
      AndClearsBit(w, k, 32, j);
    }
    AndClearsBit(w, k, 32, 0);
  }

  /** A non-zero word of the buffer, or of its complement, has its first one where ctz says. */
  lemma FirstInWord(w: uint32, v: bool)
    ensures
      var x := if v then w else Not32(w);
      && (x > 0 ==> Ctz(x) < BLC && Bit(w, Ctz(x)) == v && forall j :: 0 <= j < Ctz(x) ==> Bit(w, j) != v)
      && (x == 0 ==> forall j :: 0 <= j < BLC ==> Bit(w, j) != v)
  {
    Pow2Values();
    var x := if v then w else Not32(w);
    forall j: nat | j < BLC ensures Bit(x, j) == (Bit(w, j) == v) {
      NotFlipsBit(w, 32, j);
    }
    if x > 0 {
      BitBound(x, 32, Ctz(x));
    } else {
      forall j: nat | j < BLC ensures !Bit(x, j) {
        ZeroBits(j);
      }
    }
  }

  /** What one step of a word-wise scan sees. */
  lemma ScanWord(words: seq<uint32>, s: nat, v: bool)
    requires s % BLC == 0 && s < BLC * |words|
    ensures s + BLC <= BLC * |words|
    ensures
      var x := if v then words[s / BLC] else Not32(words[s / BLC]);
      && (x > 0 ==> Ctz(x) < BLC && BitAt(words, s + Ctz(x)) == v)
      && (x > 0 ==> forall i :: s <= i < s + Ctz(x) ==> BitAt(words, i) != v)
      && (x == 0 ==> forall i :: s <= i < s + BLC ==> BitAt(words, i) != v)
  {
    hide Bit, Ctz, Pow2;
    FirstInWord(words[s / BLC], v);
    forall i | s <= i < s + BLC ensures BitAt(words, i) == Bit(words[s / BLC], i - s) {
      assert i / BLC == s / BLC && i % BLC == i - s;
    }
  }

  lemma WordFilled(words: seq<uint32>, s: nat)
    requires s % BLC == 0 && s < BLC * |words|
    ensures IntervalSet(words, words[s / BLC := ALL_ONES], s, s + BLC)
  {
    hide Bit;
    AllOnes();
    var words' := words[s / BLC := ALL_ONES];
    forall j: nat | j < BLC * |words| ensures BitAt(words', j) == (s <= j < s + BLC || BitAt(words, j)) {
      assert j / BLC == s / BLC <==> s <= j < s + BLC;
    }
  }

  lemma BitSet(words: seq<uint32>, i: nat)
    requires i < BLC * |words|
    ensures Pow2(i % BLC) < TWO_32 && Or(words[i / BLC], Pow2(i % BLC)) < TWO_32
    ensures IntervalSet(words, words[i / BLC := Or(words[i / BLC], Pow2(i % BLC))], i, i + 1)
  {
    hide Bit, Pow2, Or;
    SetBitWord(words[i / BLC], i % BLC);
    var words' := words[i / BLC := Or(words[i / BLC], Pow2(i % BLC))];
    forall j: nat | j < BLC * |words| ensures BitAt(words', j) == (j == i || BitAt(words, j)) {
      assert j / BLC == i / BLC && j % BLC == i % BLC ==> j == i;
    }
  }

  lemma BitCleared(words: seq<uint32>, i: nat)
    requires i < BLC * |words|
    ensures Pow2(i % BLC) < TWO_32 && And(words[i / BLC], Not32(Pow2(i % BLC))) < TWO_32
    ensures
      var words' := words[i / BLC := And(words[i / BLC], Not32(Pow2(i % BLC)))];
      forall j: nat :: j < BLC * |words| ==> BitAt(words', j) == (j != i && BitAt(words, j))
  {
    hide Bit, Pow2, And;
    ClearBitWord(words[i / BLC], i % BLC);
    var words' := words[i / BLC := And(words[i / BLC], Not32(Pow2(i % BLC)))];
    forall j: nat | j < BLC * |words| ensures BitAt(words', j) == (j != i && BitAt(words, j)) {
      assert j / BLC == i / BLC && j % BLC == i % BLC ==> j == i;
    }
  }

  /** Exactly the bits [lo, hi) have been set. */
  ghost predicate IntervalSet(words0: seq<uint32>, words: seq<uint32>, lo: int, hi: int) {
    |words| == |words0| && forall j: nat :: j < BLC * |words| ==> BitAt(words, j) == (lo <= j < hi || BitAt(words0, j))
  }

  lemma IntervalGrows(words0: seq<uint32>, words: seq<uint32>, words': seq<uint32>, lo: int, mid: int, hi: int)
    requires lo <= mid <= hi && IntervalSet(words0, words, lo, mid) && IntervalSet(words, words', mid, hi)
    ensures IntervalSet(words0, words', lo, hi)
  {
    hide BitAt;
  }

  const ALL_ONES: uint32 := 0xFFFF_FFFF

  lemma AllOnes()
    ensures forall j: nat :: j < BLC ==> Bit(ALL_ONES, j)
  {
    Pow2Values();
    forall j: nat | j < BLC ensures Bit(ALL_ONES, j) {
      NotFlipsBit(0, 32, j);
      ZeroBits(j);
    }
  }

  /** Bits [s, s + length) exist and are clear; a request for no bits still looks for one. */
  ghost predicate Fits(words: seq<uint32>, n: nat, s: nat, length: nat)
    requires n <= BLC * |words|
  {
    s + (if length == 0 then 1 else length) <= n
    && forall i :: s <= i < s + (if length == 0 then 1 else length) ==> !BitAt(words, i)
  }

  class Bitmap {
    const buff: array<uint32>
    const bitsCount: uint32

    ghost predicate Valid()
      reads this
    {
      buff.Length == (bitsCount + BLC - 1) / BLC && bitsCount + BLC <= TWO_32
    }

    constructor (n: uint32)
      requires n + BLC <= TWO_32
      ensures Valid() && bitsCount == n && fresh(buff)
      ensures forall i :: 0 <= i < n ==> !BitAt(buff[..], i)
    {
      bitsCount := n;
      buff := new uint32[(n + BLC - 1) / BLC](_ => 0);
      new;
      forall i | 0 <= i < n ensures !BitAt(buff[..], i) {
        ZeroBits(i % BLC);
      }
    }

    predicate TestBit(i: uint32)
      requires Valid() && i < bitsCount
      reads this, buff
      ensures TestBit(i) == BitAt(buff[..], i)
    {
      AndTestsBit(buff[i / BLC], i % BLC);
      And(buff[i / BLC], Pow2(i % BLC)) != 0
    }

    method SetBit(i: uint32)
      requires Valid() && i < bitsCount
      modifies buff
      ensures IntervalSet(old(buff[..]), buff[..], i, i + 1)
    {
      hide Bit, Pow2, Or;
      BitSet(buff[..], i);
      buff[i / BLC] := Or(buff[i / BLC], Pow2(i % BLC));
      assert buff[..] == old(buff[..])[i / BLC := buff[i / BLC]];
    }

    method ClearBit(i: uint32)
      requires Valid() && i < bitsCount
      modifies buff
      ensures forall j: nat :: j < BLC * buff.Length ==> BitAt(buff[..], j) == (j != i && BitAt(old(buff[..]), j))
    {
      hide Bit, Pow2, And;
      BitCleared(buff[..], i);
      buff[i / BLC] := And(buff[i / BLC], Not32(Pow2(i % BLC)));
      assert buff[..] == old(buff[..])[i / BLC := buff[i / BLC]];
    }

    /** First clear bit at or after start: bit by bit up to a word boundary, then whole words, then the rest. */
    method FindFirstZero(start: uint32) returns (r: uint32)
      requires Valid()
      ensures r <= bitsCount && (r < bitsCount ==> start <= r && !BitAt(buff[..], r))
      ensures forall i :: start <= i < r ==> BitAt(buff[..], i)
    {
      hide BitAt, Pow2, And, Ctz, Not32;
      ghost var words := buff[..];
      var s := start;
      while s % BLC != 0 && s < bitsCount
        invariant s >= start && (start <= bitsCount ==> s <= bitsCount)
        invariant forall i :: start <= i < s && i < bitsCount ==> BitAt(words, i)
        invariant buff[..] == words
        decreases bitsCount - s
      {
        if !TestBit(s) {
          return s;
        }
        s := s + 1;
      }
      while s < bitsCount - bitsCount % BLC
        invariant s >= start && (start <= bitsCount ==> s <= bitsCount) && (s < bitsCount ==> s % BLC == 0)
        invariant forall i :: start <= i < s && i < bitsCount ==> BitAt(words, i)
        invariant buff[..] == words
        decreases bitsCount - s
      {
        ScanWord(words, s, false);
        if Not32(buff[s / BLC]) != 0 {
          return s + Ctz(Not32(buff[s / BLC]));
        }
        s := s + BLC;
      }
      while s < bitsCount
        invariant s >= start && (start <= bitsCount ==> s <= bitsCount)
        invariant forall i :: start <= i < s && i < bitsCount ==> BitAt(words, i)
        invariant buff[..] == words
        decreases bitsCount - s
      {
        if !TestBit(s) {
          return s;
        }
        s := s + 1;
      }
      return bitsCount;
    }

    /** First set bit at or after start, the same way. */
    method FindFirstOne(start: uint32) returns (r: uint32)
      requires Valid()
      ensures r <= bitsCount && (r < bitsCount ==> start <= r && BitAt(buff[..], r))
      ensures forall i :: start <= i < r ==> !BitAt(buff[..], i)
    {
      hide BitAt, Pow2, And, Ctz, Not32;
      ghost var words := buff[..];
      var s := start;
      while s % BLC != 0 && s < bitsCount
        invariant s >= start && (start <= bitsCount ==> s <= bitsCount)
        invariant forall i :: start <= i < s && i < bitsCount ==> !BitAt(words, i)
        invariant buff[..] == words
        decreases bitsCount - s
      {
        if TestBit(s) {
          return s;
        }
        s := s + 1;
      }
      while s < bitsCount - bitsCount % BLC
        invariant s >= start && (start <= bitsCount ==> s <= bitsCount) && (s < bitsCount ==> s % BLC == 0)
        invariant forall i :: start <= i < s && i < bitsCount ==> !BitAt(words, i)
        invariant buff[..] == words
        decreases bitsCount - s
      {
        ScanWord(words, s, true);
        if buff[s / BLC] != 0 {
          return s + Ctz(buff[s / BLC]);
        }
        s := s + BLC;
      }
      while s < bitsCount
        invariant s >= start && (start <= bitsCount ==> s <= bitsCount)
        invariant forall i :: start <= i < s && i < bitsCount ==> !BitAt(words, i)
        invariant buff[..] == words
        decreases bitsCount - s
      {
        if TestBit(s) {
          return s;
        }
        s := s + 1;
      }
      return bitsCount;
    }

    /** Sets the bits [start, end), none if start is not below end: bit by bit up to a word boundary, then whole
        words, then the rest. */
    method SetInterval(start: uint32, end: uint32)
      requires Valid() && end <= bitsCount
      modifies buff
      ensures IntervalSet(old(buff[..]), buff[..], start, end)
    {
      hide BitAt, IntervalSet;
      var s := start;
      IntervalEmpty(buff[..], start);
      while s % BLC != 0 && s < end
        invariant start <= s && (if start <= end then s <= end else s == start)
        invariant IntervalSet(old(buff[..]), buff[..], start, s)
        decreases end - s
      {
        ghost var before := buff[..];
        SetBit(s);
        IntervalGrows(old(buff[..]), before, buff[..], start, s, s + 1);
        s := s + 1;
      }
      while s < end - end % BLC
        invariant start <= s && (if start <= end then s <= end else s == start) && (s < end ==> s % BLC == 0)
        invariant IntervalSet(old(buff[..]), buff[..], start, s)
        decreases end - s
      {
        ghost var before := buff[..];
        WordFilled(before, s);
        buff[s / BLC] := ALL_ONES;
        assert buff[..] == before[s / BLC := ALL_ONES];
        IntervalGrows(old(buff[..]), before, buff[..], start, s, s + BLC);
        s := s + BLC;
      }
      while s < end
        invariant start <= s && (if start <= end then s <= end else s == start)
        invariant IntervalSet(old(buff[..]), buff[..], start, s)
        decreases end - s
      {
        ghost var before := buff[..];
        SetBit(s);
        IntervalGrows(old(buff[..]), before, buff[..], start, s, s + 1);
        s := s + 1;
      }
      IntervalNone(old(buff[..]), buff[..], start, end);
    }

    /** First fit: the least s >= start where `length` clear bits begin, which are then set, or bitsCount. */
    method AllocInterval(start: uint32, length: uint32) returns (r: uint32)
      requires Valid()
      modifies buff
      ensures r <= bitsCount
      ensures r < bitsCount ==> start <= r && Fits(old(buff[..]), bitsCount, r, length)
      ensures forall s :: start <= s < r ==> !Fits(old(buff[..]), bitsCount, s, length)
      ensures IntervalSet(old(buff[..]), buff[..], r, if r < bitsCount then r + length else r)
    {
      hide BitAt;
      var s := start;
      while s < bitsCount
        invariant s >= start && (start <= bitsCount ==> s <= bitsCount) && buff[..] == old(buff[..])
        invariant forall t :: start <= t < s && t < bitsCount ==> !Fits(buff[..], bitsCount, t, length)
        decreases bitsCount - s
      {
        var zero := FindFirstZero(s);
        var end := FindFirstOne(zero);
        forall t | s <= t < zero ensures !Fits(buff[..], bitsCount, t, length) {
          assert BitAt(buff[..], t);
        }
        if end - zero >= length {
          ghost var words := buff[..];
          assert Fits(words, bitsCount, zero, length) || zero == bitsCount;
          SetInterval(zero, zero + length);
          return zero;
        }
        forall t | zero <= t < end ensures !Fits(buff[..], bitsCount, t, length) {
          assert end < bitsCount ==> BitAt(buff[..], end);
        }
        s := end;
      }
      IntervalEmpty(buff[..], bitsCount);
      return bitsCount;
    }
  }

  lemma IntervalNone(words0: seq<uint32>, words: seq<uint32>, s: int, e: int)
    ensures e <= s && IntervalSet(words0, words, s, s) ==> IntervalSet(words0, words, s, e)
  {
    hide BitAt;
  }

  lemma IntervalEmpty(words: seq<uint32>, s: int)
    ensures IntervalSet(words, words, s, s)
  {
  }
}
