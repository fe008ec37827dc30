/** The 32-bit machine underneath the kernel: word widths, the bit-counting builtins and byte-addressed memory. */
module Machine {

  const TWO_32: int := 0x1_0000_0000

  type byte = x: int | 0 <= x < 256
  type uint32 = x: int | 0 <= x < TWO_32

  datatype Option<+T> = None | Some(value: T)

  // ---- powers of two and __builtin_clz ----

  function Pow2(n: nat): (r: nat)
    ensures r >= 1
  {
    if n == 0 then 1 else 2 * Pow2(n - 1)
  }

  /** Number of significant bits of x. */
  function BitLength(x: nat): nat {
    if x == 0 then 0 else 1 + BitLength(x / 2)
  }

  /** Leading zeros of a non-zero 32-bit word; the builtin is undefined on zero. */
  function Clz(x: uint32): (r: nat)
    requires x > 0
    ensures r < 32
  {
    Pow2Values();
    BitLengthBelow(x, 32);
    assert BitLength(x) == 1 + BitLength(x / 2);
    32 - BitLength(x)
  }

  lemma {:induction false} Pow2Sum(i: nat, j: nat)
    ensures Pow2(i + j) == Pow2(i) * Pow2(j)
  {
    if i > 0 {
      Pow2Sum(i - 1, j);
      assert i + j - 1 == i - 1 + j;
    }
  }

  lemma Pow2Values()
    ensures Pow2(5) == 32
    ensures Pow2(26) == 0x400_0000
    ensures Pow2(29) == 0x2000_0000
    ensures Pow2(32) == TWO_32
  {
    assert Pow2(8) == 0x100;
    Pow2Sum(8, 8);
    Pow2Sum(16, 8);
    Pow2Sum(24, 2);
    Pow2Sum(24, 5);
    Pow2Sum(24, 8);
  }

  lemma {:induction false} BitLengthBelow(x: nat, k: nat)
    requires x < Pow2(k)
    ensures BitLength(x) <= k
  {
    if x > 0 {
      BitLengthBelow(x / 2, k - 1);
    }
  }

  lemma {:induction false} BitLengthBounds(x: nat)
    ensures x < Pow2(BitLength(x))
    ensures x > 0 ==> BitLength(x) > 0 && Pow2(BitLength(x) - 1) <= x
  {
    if x > 0 {
      BitLengthBounds(x / 2);
    }
  }

  lemma {:induction false} BitLengthMonotone(x: nat, y: nat)
    requires x <= y
    ensures BitLength(x) <= BitLength(y)
  {
    if x > 0 {
      BitLengthMonotone(x / 2, y / 2);
    }
  }

  lemma {:induction false} Pow2Monotone(i: nat, j: nat)
    requires i <= j
    ensures Pow2(i) <= Pow2(j)
  {
    if i < j {
      Pow2Monotone(i, j - 1);
    }
  }

  // ---- bitwise operators on words ----

  function And(x: nat, y: nat): nat {
    if x == 0 || y == 0 then 0
    else 2 * And(x / 2, y / 2) + if x % 2 == 1 && y % 2 == 1 then 1 else 0
  }

  function Or(x: nat, y: nat): nat
    decreases x + y
  {
    if x == 0 then y
    else if y == 0 then x
    else 2 * Or(x / 2, y / 2) + if x % 2 == 1 || y % 2 == 1 then 1 else 0
  }

  function Not32(x: uint32): uint32 {
    TWO_32 - 1 - x
  }

  ghost predicate IsPowerOfTwo(x: nat) {
    exists k: nat :: x == Pow2(k)
  }

  /** x & (x - 1) is zero exactly for the powers of two. */
  lemma {:induction false} PowerOfTwoTest(x: nat)
    requires x > 0
    ensures And(x, x - 1) == 0 <==> IsPowerOfTwo(x)
  {
    if x == 1 {
      assert x == Pow2(0);
    } else if x % 2 == 1 {
      assert And(x, x - 1) == 2 * And(x / 2, x / 2);
      AndSelf(x / 2);
      forall k: nat ensures x != Pow2(k) {
      }
    } else {
      PowerOfTwoTest(x / 2);
      assert (x - 1) / 2 == x / 2 - 1;
      if IsPowerOfTwo(x / 2) {
        var k: nat :| x / 2 == Pow2(k);
        assert x == Pow2(k + 1);
      }
      if IsPowerOfTwo(x) {
        var k: nat :| x == Pow2(k);
        assert x / 2 == Pow2(k - 1);
      }
    }
  }

  lemma {:induction false} AndSelf(x: nat)
    ensures And(x, x) == x
  {
    if x > 0 {
      AndSelf(x / 2);
    }
  }

  lemma {:induction false} AndAllOnes(x: nat, n: nat)
    requires x < Pow2(n)
    ensures And(x, Pow2(n) - 1) == x
  {
    if x > 0 {
      AndAllOnes(x / 2, n - 1);
      assert (Pow2(n) - 1) / 2 == Pow2(n - 1) - 1;
    }
  }

  /** The k lowest bits. */
  function LowBits(x: nat, k: nat): nat {
    if k == 0 then 0 else 2 * LowBits(x / 2, k - 1) + x % 2
  }

  lemma {:induction false} LowBitsIsRemainder(x: nat, k: nat)
    ensures LowBits(x, k) == x % Pow2(k)
  {
    if k > 0 {
      LowBitsIsRemainder(x / 2, k - 1);
      HalfMod(x, Pow2(k - 1));
    } else {
      RemainderUnique(x, 1, x, 0);
    }
  }

  /** Masking with 2^k - 1 keeps the k lowest bits, the remainder by 2^k. */
  lemma {:induction false} AndLowMask(x: nat, k: nat)
    ensures And(x, Pow2(k) - 1) == x % Pow2(k)
  {
    hide And;
    if k == 0 {
      RemainderUnique(x, 1, x, 0);
      AndZero(x);
    } else {
      AndLowMask(x / 2, k - 1);
      MaskStep(x, Pow2(k - 1));
      HalfMod(x, Pow2(k - 1));
    }
  }

  lemma MaskStep(x: nat, p: nat)
    requires p > 0
    ensures And(x, 2 * p - 1) == 2 * And(x / 2, p - 1) + x % 2
  {
    AndOdd(x, 2 * p - 1);
  }

  lemma AndZero(x: nat)
    ensures And(x, 0) == 0
  {
  }

  lemma AndOdd(x: nat, y: nat)
    requires y % 2 == 1
    ensures And(x, y) == 2 * And(x / 2, y / 2) + x % 2
  {
    assert x == 0 ==> And(x / 2, y / 2) == 0;
  }

  /** Masking with size - 1 wraps an index at a power of two. */
  lemma WrapMask(x: nat, size: nat)
    requires IsPowerOfTwo(size)
    ensures And(x, size - 1) == x % size
    ensures x < size ==> And(x, size - 1) == x
    ensures size <= x < 2 * size ==> And(x, size - 1) == x - size
  {
    var k: nat :| size == Pow2(k);
    AndLowMask(x, k);
    if x < size {
      RemainderUnique(x, size, 0, x);
    } else if x < 2 * size {
      RemainderUnique(x, size, 1, x - size);
    }
  }

  /** A power of two up to 2^32 divides 2^32. */
  lemma DividesTwo32(size: nat) returns (q: nat)
    requires IsPowerOfTwo(size) && size <= TWO_32
    ensures q * size == TWO_32
  {
    var k: nat :| size == Pow2(k);
    Pow2Values();
    if k > 32 {
      Pow2Monotone(33, k);
    }
    Pow2Sum(32 - k, k);
    q := Pow2(32 - k);
  }

  /** A difference taken modulo 2^32 wraps to the same index. */
  lemma WrapDifference(a: nat, b: nat, size: nat)
    requires IsPowerOfTwo(size) && size <= TWO_32 && a < size && b < size
    ensures And((a - b) % TWO_32, size - 1) == if a >= b then a - b else a - b + size
  {
    hide And, IsPowerOfTwo;
    var q := DividesTwo32(size);
    WrapMask((a - b) % TWO_32, size);
    if a >= b {
      RemainderUnique(a - b, size, 0, a - b);
    } else {
      assert (q - 1) * size == q * size - size;
      RemainderUnique(a - b + TWO_32, size, q - 1, a - b + size);
    }
  }

  /** One place back from i, where the difference may fall below zero. */
  lemma BackMask(i: nat, size: nat)
    requires IsPowerOfTwo(size) && size <= TWO_32 && i < size
    ensures And((i - 1) % TWO_32, size - 1) == if i > 0 then i - 1 else size - 1
  {
    hide And, IsPowerOfTwo;
    if size == 1 {
      AndZero((i - 1) % TWO_32);
    } else {
      WrapDifference(i, 1, size);
    }
  }

  lemma PowerOfTwoDoubles(x: nat)
    requires IsPowerOfTwo(x)
    ensures IsPowerOfTwo(2 * x) && x >= 1 && (x > 1 ==> x % 2 == 0 && IsPowerOfTwo(x / 2))
  {
    var k: nat :| x == Pow2(k);
    assert 2 * x == Pow2(k + 1);
    if x > 1 {
      assert x / 2 == Pow2(k - 1);
    }
  }

  /** Masking with the complement of 2^k - 1 clears the k lowest bits. */
  lemma {:induction false} AndHighMask(x: nat, n: nat, k: nat)
    requires x < Pow2(n) && k <= n
    ensures Pow2(k) <= Pow2(n) && And(x, Pow2(n) - Pow2(k)) == x - LowBits(x, k)
  {
    hide And;
    Pow2Monotone(k, n);
    if k == 0 {
      AndAllOnes(x, n);
    } else {
      AndHighMask(x / 2, n - 1, k - 1);
      AndEven(x, Pow2(n) - Pow2(k));
      assert (Pow2(n) - Pow2(k)) / 2 == Pow2(n - 1) - Pow2(k - 1);
    }
  }

  lemma AndEven(x: nat, y: nat)
    requires y % 2 == 0
    ensures And(x, y) == 2 * And(x / 2, y / 2)
  {
  }

  lemma HalfMod(x: nat, p: nat)
    requires p > 0
    ensures x % (2 * p) == 2 * (x / 2 % p) + x % 2
  {
    var q, r := x / 2 / p, x / 2 % p;
    assert x == 2 * (q * p + r) + x % 2;
    assert x == q * (2 * p) + (2 * r + x % 2) by {
      assert 2 * (q * p) == q * (2 * p);
    }
    RemainderUnique(x, 2 * p, q, 2 * r + x % 2);
  }

  lemma RemainderUnique(x: nat, d: nat, q: nat, r: nat)
    requires r < d && x == q * d + r
    ensures x % d == r && x / d == q
  {
    assert (x / d - q) * d == r - x % d;
    MultipleBounds(x / d - q, d);
  }

  lemma MultipleBounds(z: int, d: int)
    requires d >= 0
    ensures z >= 1 ==> z * d >= d
    ensures z <= -1 ==> z * d + d <= 0
  {
  }

  // ---- little-endian words in a byte-addressed memory ----

  function Load(m: seq<byte>, a: nat): (v: uint32)
    requires a + 4 <= |m|
  {
    var b0: int, b1: int, b2: int, b3: int := m[a], m[a + 1], m[a + 2], m[a + 3];
    b0 + 0x100 * b1 + 0x1_0000 * b2 + 0x100_0000 * b3
  }

  /** Four bytes at address a. */
  function PutBytes(m: seq<byte>, a: nat, b0: byte, b1: byte, b2: byte, b3: byte): (r: seq<byte>)
    requires a + 4 <= |m|
    ensures |r| == |m|
    ensures r[a] == b0 && r[a + 1] == b1 && r[a + 2] == b2 && r[a + 3] == b3
    ensures forall k :: 0 <= k < |m| && !(a <= k < a + 4) ==> r[k] == m[k]
  {
    m[a := b0][a + 1 := b1][a + 2 := b2][a + 3 := b3]
  }

  function Store(m: seq<byte>, a: nat, v: uint32): (r: seq<byte>)
    requires a + 4 <= |m|
    ensures |r| == |m|
    ensures Load(r, a) == v
    ensures forall k :: 0 <= k < |m| && !(a <= k < a + 4) ==> r[k] == m[k]
    ensures forall b: nat {:trigger Load(r, b)} :: (b + 4 <= a || a + 4 <= b) && b + 4 <= |m| ==>
      Load(r, b) == Load(m, b)
  {
    var q1 := v / 0x100;
    var q2 := q1 / 0x100;
    var r := PutBytes(m, a, v % 0x100, q1 % 0x100, q2 % 0x100, q2 / 0x100);
    LoadsElsewhere(m, r, a);
    r
  }

  lemma LoadsElsewhere(m: seq<byte>, r: seq<byte>, a: nat)
    requires |r| == |m| && forall k :: 0 <= k < |m| && !(a <= k < a + 4) ==> r[k] == m[k]
    ensures forall b: nat {:trigger Load(r, b)} :: (b + 4 <= a || a + 4 <= b) && b + 4 <= |m| ==>
      Load(r, b) == Load(m, b)
  {
  }

  /** Storing a loaded word copies its four bytes. */
  lemma StoreLoadCopies(m: seq<byte>, dst: nat, src: nat)
    requires dst + 4 <= |m| && src + 4 <= |m|
    ensures Store(m, dst, Load(m, src))[dst..dst + 4] == m[src..src + 4]
  {
    var r := Store(m, dst, Load(m, src));
    DigitsUnique(r[dst], r[dst + 1], r[dst + 2], r[dst + 3], m[src], m[src + 1], m[src + 2], m[src + 3]);
  }

  lemma DigitsUnique(a0: byte, a1: byte, a2: byte, a3: byte, b0: byte, b1: byte, b2: byte, b3: byte)
    requires a0 + 0x100 * (a1 + 0x100 * (a2 + 0x100 * a3 as int) as int) ==
      b0 + 0x100 * (b1 + 0x100 * (b2 + 0x100 * b3 as int) as int)
    ensures a0 == b0 && a1 == b1 && a2 == b2 && a3 == b3
  {
  }
}
