/** Conversion between 16-bit units and UTF-8, in the one- to three-byte forms of section 3 of RFC 3629. */
module Utf8 {
  import opened Machine

  type Unit = bv16

  /** The forms of a unit. */
  function EncodeUnit(u: Unit): (r: seq<bv8>)
    ensures 1 <= |r| <= 3
  {
    if u <= 0x7F then [u as bv8]
    else if u <= 0x7FF then [0xC0 | ((u >> 6) & 0x1F) as bv8, 0x80 | (u & 0x3F) as bv8]
    else [0xE0 | ((u >> 12) & 0x0F) as bv8, 0x80 | ((u >> 6) & 0x3F) as bv8, 0x80 | (u & 0x3F) as bv8]
  }

  function Encode(us: seq<Unit>): (r: seq<bv8>)
    ensures |us| <= |r| <= 3 * |us|
  {
    if us == [] then [] else Encode(us[..|us| - 1]) + EncodeUnit(us[|us| - 1])
  }

  function Join2(b0: bv8, b1: bv8): Unit {
    ((b0 & 0x1F) as bv16 << 6) | (b1 & 0x3F) as bv16
  }

  function Join3(b0: bv8, b1: bv8, b2: bv8): Unit {
    ((b0 & 0x0F) as bv16 << 12) | ((b1 & 0x3F) as bv16 << 6) | (b2 & 0x3F) as bv16
  }

  /** Bytes taken by the form that starts with b; a byte that starts none is taken alone. */
  function FormLength(b: bv8): (n: nat)
    ensures 1 <= n <= 3
  {
    if b & 0x80 == 0 then 1 else if b & 0xE0 == 0xC0 then 2 else if b & 0xF0 == 0xE0 then 3 else 1
  }

  function DecodeForm(bs: seq<bv8>): Unit
    requires bs != [] && FormLength(bs[0]) <= |bs|
  {
    if bs[0] & 0x80 == 0 then bs[0] as bv16
    else if bs[0] & 0xE0 == 0xC0 then Join2(bs[0], bs[1])
    else if bs[0] & 0xF0 == 0xE0 then Join3(bs[0], bs[1], bs[2])
    else 0x3F
  }

  /** The last form is not cut off. */
  predicate Complete(bs: seq<bv8>)
    decreases |bs|
  {
    bs == [] || (FormLength(bs[0]) <= |bs| && Complete(bs[FormLength(bs[0])..]))
  }

  function Decode(bs: seq<bv8>): (us: seq<Unit>)
    requires Complete(bs)
    ensures |us| <= |bs|
    decreases |bs|
  {
    if bs == [] then [] else [DecodeForm(bs)] + Decode(bs[FormLength(bs[0])..])
  }

  // ---- the forms in numbers ----

  /** Section 3 of RFC 3629: a form holds the unit's digits in base 64, the first with a mark for the number of
      bytes. */
  lemma EncodedDigits(u: Unit)
    ensures u < 0x80 ==> EncodeUnit(u) == [u as bv8]
    ensures 0x80 <= u < 0x800 ==>
      && |EncodeUnit(u)| == 2
      && EncodeUnit(u)[0] as bv16 == 0xC0 + u / 64 && EncodeUnit(u)[1] as bv16 == 0x80 + u % 64
    ensures 0x800 <= u ==>
      && |EncodeUnit(u)| == 3
      && EncodeUnit(u)[0] as bv16 == 0xE0 + u / 4096
      && EncodeUnit(u)[1] as bv16 == 0x80 + u / 64 % 64 && EncodeUnit(u)[2] as bv16 == 0x80 + u % 64
  {
  }

  /** The first byte tells the length of a form. */
  lemma FormLengths(b: bv8)
    ensures FormLength(b) == if 0xC0 <= b < 0xE0 then 2 else if 0xE0 <= b < 0xF0 then 3 else 1
  {
  }

  /** A byte that starts no form, one that continues a form or begins a form of four bytes, decodes to a question
      mark. */
  lemma StrayByte(b: bv8, rest: seq<bv8>)
    requires 0x80 <= b < 0xC0 || 0xF0 <= b
    requires Complete(rest)
    ensures Complete([b] + rest) && Decode([b] + rest) == ['?' as int as bv16] + Decode(rest)
  {
    FormLengths(b);
    assert ([b] + rest)[1..] == rest;
  }

  // ---- round trip ----

  lemma OneByte(u: Unit)
    requires u <= 0x7F
    ensures (u as bv8) & 0x80 == 0 && (u as bv8) as bv16 == u
  {
  }

  lemma TwoBytes(u: Unit, b0: bv8, b1: bv8)
    requires 0x7F < u <= 0x7FF
    requires b0 == 0xC0 | ((u >> 6) & 0x1F) as bv8 && b1 == 0x80 | (u & 0x3F) as bv8
    ensures b0 & 0x80 != 0 && b0 & 0xE0 == 0xC0
    ensures Join2(b0, b1) == u
  {
  }

  lemma ThreeBytes(u: Unit, b0: bv8, b1: bv8, b2: bv8)
    requires b0 == 0xE0 | ((u >> 12) & 0x0F) as bv8
    requires b1 == 0x80 | ((u >> 6) & 0x3F) as bv8 && b2 == 0x80 | (u & 0x3F) as bv8
    ensures b0 & 0x80 != 0 && b0 & 0xE0 != 0xC0 && b0 & 0xF0 == 0xE0
    ensures Join3(b0, b1, b2) == u
  {
  }

  lemma FormDecodes(u: Unit, rest: seq<bv8>)
    ensures var bs := EncodeUnit(u) + rest;
      && FormLength(bs[0]) == |EncodeUnit(u)| && bs[|EncodeUnit(u)|..] == rest
      && DecodeForm(bs) == u
  {
    hide Join2, Join3;
    var e := EncodeUnit(u);
    if u <= 0x7F {
      OneByte(u);
    } else if u <= 0x7FF {
      TwoBytes(u, e[0], e[1]);
    } else {
      ThreeBytes(u, e[0], e[1], e[2]);
    }
  }

  lemma {:induction false} EncodeFirst(us: seq<Unit>)
    requires us != []
    ensures Encode(us) == EncodeUnit(us[0]) + Encode(us[1..])
  {
    hide EncodeUnit;
    if |us| > 1 {
      var init := us[..|us| - 1];
      EncodeFirst(init);
      assert us[1..][..|us| - 2] == init[1..];
    }
  }

  /** Decoding undoes encoding, for all units. */
  lemma {:induction false} DecodeEncode(us: seq<Unit>)
    ensures Complete(Encode(us)) && Decode(Encode(us)) == us
    decreases |us|
  {
    if us != [] {
      EncodeFirst(us);
      FormDecodes(us[0], Encode(us[1..]));
      hide EncodeUnit, FormLength, DecodeForm;
      DecodeEncode(us[1..]);
    }
  }

  // ---- which strings survive decoding ----

  /** The first form of bs is the one that section 4 of RFC 3629 allows for its unit, or that of a surrogate. */
  predicate ShortestForm(bs: seq<bv8>)
    requires bs != [] && FormLength(bs[0]) <= |bs|
  {
    if FormLength(bs[0]) == 1 then bs[0] < 0x80
    else if FormLength(bs[0]) == 2 then bs[0] >= 0xC2 && bs[1] & 0xC0 == 0x80
    else bs[1] & 0xC0 == 0x80 && bs[2] & 0xC0 == 0x80 && (bs[0] == 0xE0 ==> bs[1] >= 0xA0)
  }

  predicate Shortest(bs: seq<bv8>)
    requires Complete(bs)
    decreases |bs|
  {
    bs == [] || (ShortestForm(bs) && Shortest(bs[FormLength(bs[0])..]))
  }

  lemma Join2Encodes(b0: bv8, b1: bv8)
    requires b0 & 0xE0 == 0xC0
    ensures Join2(b0, b1) <= 0x7FF
    ensures EncodeUnit(Join2(b0, b1)) == [b0, b1] <==> b0 >= 0xC2 && b1 & 0xC0 == 0x80
  {
  }

  function Lead(u: Unit): bv8 {
    0xE0 | ((u >> 12) & 0x0F) as bv8
  }

  function Middle(u: Unit): bv8 {
    0x80 | ((u >> 6) & 0x3F) as bv8
  }

  function Low(u: Unit): bv8 {
    0x80 | (u & 0x3F) as bv8
  }

  lemma LongForm(u: Unit)
    ensures u > 0x7FF ==> EncodeUnit(u) == [Lead(u), Middle(u), Low(u)]
    ensures u <= 0x7FF ==> |EncodeUnit(u)| < 3
  {
  }

  lemma Join3Bytes(b0: bv8, b1: bv8, b2: bv8)
    requires b0 & 0xF0 == 0xE0
    ensures Lead(Join3(b0, b1, b2)) == b0
    ensures Middle(Join3(b0, b1, b2)) == b1 <==> b1 & 0xC0 == 0x80
    ensures Low(Join3(b0, b1, b2)) == b2 <==> b2 & 0xC0 == 0x80
    ensures b1 & 0xC0 == 0x80 ==> (Join3(b0, b1, b2) > 0x7FF <==> b0 == 0xE0 ==> b1 >= 0xA0)
  {
  }

  lemma Join3Encodes(b0: bv8, b1: bv8, b2: bv8)
    requires b0 & 0xF0 == 0xE0
    ensures EncodeUnit(Join3(b0, b1, b2)) == [b0, b1, b2] <==>
      b1 & 0xC0 == 0x80 && b2 & 0xC0 == 0x80 && (b0 == 0xE0 ==> b1 >= 0xA0)
  {
    hide Join3, EncodeUnit, Lead, Middle, Low;
    var u := Join3(b0, b1, b2);
    LongForm(u);
    Join3Bytes(b0, b1, b2);
    if u > 0x7FF {
      ListsEqual(Lead(u), Middle(u), Low(u), b0, b1, b2);
    }
  }

  lemma ListsEqual(a0: bv8, a1: bv8, a2: bv8, b0: bv8, b1: bv8, b2: bv8)
    ensures [a0, a1, a2] == [b0, b1, b2] <==> a0 == b0 && a1 == b1 && a2 == b2
  {
    if [a0, a1, a2] == [b0, b1, b2] {
      assert [a0, a1, a2][0] == b0 && [a0, a1, a2][1] == b1 && [a0, a1, a2][2] == b2;
    }
  }

  lemma FormEncodes(bs: seq<bv8>)
    requires bs != [] && FormLength(bs[0]) <= |bs|
    ensures |EncodeUnit(DecodeForm(bs))| <= FormLength(bs[0])
    ensures EncodeUnit(DecodeForm(bs)) == bs[..FormLength(bs[0])] <==> ShortestForm(bs)
  {
    hide Join2, Join3;
    if bs[0] & 0x80 != 0 && bs[0] & 0xE0 == 0xC0 {
      Join2Encodes(bs[0], bs[1]);
    } else if bs[0] & 0x80 != 0 && bs[0] & 0xF0 == 0xE0 {
      Join3Encodes(bs[0], bs[1], bs[2]);
    }
  }

  lemma {:induction false} EncodeConcat(a: seq<Unit>, b: seq<Unit>)
    ensures Encode(a + b) == Encode(a) + Encode(b)
  {
    hide Encode, EncodeUnit;
    if b == [] {
      EncodeEmpty(b);
      assert a + b == a;
    } else {
      EncodeConcat(a, b[..|b| - 1]);
      EncodeNext(b, |b| - 1);
      EncodeNext(a + b, |a + b| - 1);
      assert (a + b)[..|a + b| - 1] == a + b[..|b| - 1];
      assert b[..|b|] == b && (a + b)[..|a + b|] == a + b;
    }
  }

  lemma DecodeStep(bs: seq<bv8>)
    requires Complete(bs)
    ensures bs == [] <==> Decode(bs) == []
    ensures bs != [] ==> FormLength(bs[0]) <= |bs| && Complete(bs[FormLength(bs[0])..])
    ensures bs != [] ==> Decode(bs) == [DecodeForm(bs)] + Decode(bs[FormLength(bs[0])..])
  {
  }

  /** Encoding the first k decoded units takes no more bytes than they were decoded from. */
  lemma {:induction false} DecodedShorter(bs: seq<bv8>, k: nat)
    requires Complete(bs) && k <= |Decode(bs)|
    ensures |Encode(Decode(bs)[..k])| + |Decode(bs)| - k <= |bs|
    decreases |bs|
  {
    hide Encode, Decode, Complete, EncodeUnit, DecodeForm, FormLength;
    if k > 0 {
      DecodeStep(bs);
      var rest := bs[FormLength(bs[0])..];
      FormEncodes(bs);
      DecodedShorter(rest, k - 1);
      EncodeFirst(Decode(bs)[..k]);
      assert Decode(bs)[..k][1..] == Decode(rest)[..k - 1];
    }
  }

  lemma PairsEqual(a: seq<bv8>, b: seq<bv8>, c: seq<bv8>, d: seq<bv8>)
    requires |a| <= |c| && |b| <= |d|
    ensures a + b == c + d <==> a == c && b == d
  {
    if a + b == c + d {
      assert a == (a + b)[..|a|] && b == (a + b)[|a|..];
      assert c == (c + d)[..|c|] && d == (c + d)[|c|..];
    }
  }

  lemma ShortestStep(bs: seq<bv8>)
    requires Complete(bs)
    ensures bs == [] ==> Shortest(bs)
    ensures bs != [] ==> (Shortest(bs) <==> ShortestForm(bs) && Shortest(bs[FormLength(bs[0])..]))
  {
  }

  /** Encoding undoes decoding exactly for strings of shortest forms. */
  lemma {:induction false} EncodeDecode(bs: seq<bv8>)
    requires Complete(bs)
    ensures Encode(Decode(bs)) == bs <==> Shortest(bs)
    decreases |bs|
  {
    hide Encode, Decode, Complete, Shortest, EncodeUnit, DecodeForm, FormLength, ShortestForm;
    DecodeStep(bs);
    ShortestStep(bs);
    if bs == [] {
      assert Encode(Decode(bs)) == [];
    } else {
      var n := FormLength(bs[0]);
      var us, u := Decode(bs[n..]), EncodeUnit(DecodeForm(bs));
      FormEncodes(bs);
      EncodeDecode(bs[n..]);
      EncodeFirst(Decode(bs));
      assert Decode(bs)[1..] == us;
      DecodedShorter(bs[n..], |us|);
      assert us[..|us|] == us;
      assert bs == bs[..n] + bs[n..];
      PairsEqual(u, Encode(us), bs[..n], bs[n..]);
    }
  }

  /** A string of as many bytes as units has single-byte forms only. */
  lemma {:induction false} EncodeTight(us: seq<Unit>)
    requires |Encode(us)| == |us|
    ensures forall i :: 0 <= i < |us| ==> Encode(us)[i] < 0x80
  {
    if us != [] {
      var init, u := us[..|us| - 1], us[|us| - 1];
      assert |EncodeUnit(u)| == 1;
      EncodeTight(init);
      TightForm(u);
    }
  }

  lemma TightForm(u: Unit)
    requires |EncodeUnit(u)| == 1
    ensures EncodeUnit(u)[0] < 0x80
  {
  }

  lemma {:induction false} EncodeNoZero(us: seq<Unit>)
    requires forall i :: 0 <= i < |us| ==> us[i] != 0
    ensures forall i :: 0 <= i < |Encode(us)| ==> Encode(us)[i] != 0
  {
    if us != [] {
      EncodeNoZero(us[..|us| - 1]);
      UnitNoZero(us[|us| - 1]);
    }
  }

  lemma UnitNoZero(u: Unit)
    requires u != 0
    ensures forall i :: 0 <= i < |EncodeUnit(u)| ==> EncodeUnit(u)[i] != 0
  {
  }

  // ---- the conversions ----

  /** A string of n non-zero elements with its terminator. */
  ghost predicate WideString(a: array<Unit>, n: nat)
    reads a
  {
    n < a.Length && a[n] == 0 && forall i :: 0 <= i < n ==> a[i] != 0
  }

  ghost predicate ByteString(a: array<bv8>, n: nat)
    reads a
  {
    n < a.Length && a[n] == 0 && forall i :: 0 <= i < n ==> a[i] != 0
  }

  lemma EncodeNext(us: seq<Unit>, i: nat)
    requires i < |us|
    ensures Encode(us[..i + 1]) == Encode(us[..i]) + EncodeUnit(us[i])
  {
    assert us[..i + 1][..i] == us[..i];
  }

  lemma EncodeEmpty(us: seq<Unit>)
    ensures Encode(us[..0]) == []
  {
  }

  /** The three branches of wide_char_to_utf8. */
  method PutForm(dst: array<bv8>, j: nat, u: Unit) returns (j': nat)
    requires j + |EncodeUnit(u)| <= dst.Length
    modifies dst
    ensures j' == j + |EncodeUnit(u)| && dst[..j'] == old(dst[..j]) + EncodeUnit(u)
  {
    j' := j;
    if u <= 0x7F {
      dst[j'] := u as bv8;
      j' := j' + 1;
    } else if u <= 0x7FF {
      dst[j'] := 0xC0 | ((u >> 6) & 0x1F) as bv8;
      dst[j' + 1] := 0x80 | (u & 0x3F) as bv8;
      j' := j' + 2;
    } else {
      dst[j'] := 0xE0 | ((u >> 12) & 0x0F) as bv8;
      dst[j' + 1] := 0x80 | ((u >> 6) & 0x3F) as bv8;
      dst[j' + 2] := 0x80 | (u & 0x3F) as bv8;
      j' := j' + 3;
    }
  }

  /** dst_size - 4 wraps around below four. */
  function Limit(dstSize: uint32): (r: uint32)
    ensures r == if dstSize >= 4 then dstSize - 4 else TWO_32 + dstSize - 4
  {
    (dstSize - 4) % TWO_32
  }

  /** wide_char_to_utf8: the longest part of the string each of whose units starts within the limit. */
  method WideCharToUtf8(dst: array<bv8>, src: array<Unit>, dstSize: uint32, ghost us: seq<Unit>)
    returns (j: nat, ghost k: nat)
    requires WideString(src, |us|) && src[..|us|] == us
    requires 4 <= dstSize <= dst.Length || |Encode(us)| < dst.Length
    modifies dst
    ensures k <= |us| && j == |Encode(us[..k])| < dst.Length && dst[..j] == Encode(us[..k]) && dst[j] == 0
    ensures k > 0 ==> |Encode(us[..k - 1])| < Limit(dstSize)
    ensures k < |us| ==> j >= Limit(dstSize)
  {
    hide Encode, EncodeUnit;
    ghost var all, n := src[..], |us|;
    var i := 0;
    j := 0;
    EncodeEmpty(us);
    EncodePrefix(us, 0);
    while src[i] != 0 && j < (dstSize - 4) % TWO_32
      invariant i <= n && src[..] == all && j == |Encode(us[..i])| < dst.Length && dst[..j] == Encode(us[..i])
      invariant 4 <= dstSize <= dst.Length ==> j < dstSize - 1
      invariant i > 0 ==> |Encode(us[..i - 1])| < Limit(dstSize)
      decreases n - i
    {
      EncodeNext(us, i);
      EncodePrefix(us, i + 1);
      assert src[i] == us[i];
      j := PutForm(dst, j, src[i]);
      i := i + 1;
    }
    dst[j] := 0;
    k := i;
  }

  /** The branches of utf8_to_wide_char. */
  method ReadForm(src: array<bv8>, i: nat, ghost n: nat) returns (codepoint: Unit, i': nat)
    requires i < n <= src.Length && i + FormLength(src[i]) <= n
    ensures i' == i + FormLength(src[i]) && codepoint == DecodeForm(src[i..n])
  {
    ghost var bs := src[i..n];
    assert bs[0] == src[i];
    if src[i] & 0x80 == 0 {
      return src[i] as bv16, i + 1;
    } else if src[i] & 0xE0 == 0xC0 {
      assert bs[1] == src[i + 1];
      return ((src[i] & 0x1F) as bv16 << 6) | (src[i + 1] & 0x3F) as bv16, i + 2;
    } else if src[i] & 0xF0 == 0xE0 {
      assert bs[1] == src[i + 1] && bs[2] == src[i + 2];
      return ((src[i] & 0x0F) as bv16 << 12) | ((src[i + 1] & 0x3F) as bv16 << 6) | (src[i + 2] & 0x3F) as bv16, i + 3;
    } else {
      return 0x3F, i + 1;
    }
  }

  /** utf8_to_wide_char, for strings whose last form is not cut off. */
  method Utf8ToWideChar(dst: array<Unit>, src: array<bv8>, dstSize: nat, ghost bs: seq<bv8>) returns (j: nat)
    requires ByteString(src, |bs|) && src[..|bs|] == bs && Complete(bs)
    requires dstSize < dst.Length || |Decode(bs)| < dst.Length
    modifies dst
    ensures j == if |Decode(bs)| < dstSize then |Decode(bs)| else dstSize
    ensures j < dst.Length && dst[..j] == Decode(bs)[..j] && dst[j] == 0
    ensures forall i :: j < i < dst.Length ==> dst[i] == old(dst[i])
  {
    hide Decode, DecodeForm, FormLength, Complete;
    ghost var us, all, n := Decode(bs), src[..], |bs|;
    var i := 0;
    j := 0;
    assert src[0..n] == bs;
    while src[i] != 0 && j < dstSize
      invariant i <= n && src[..] == all && j <= dstSize && j <= |us| && Complete(src[i..n])
      invariant us[j..] == Decode(src[i..n]) && dst[..j] == us[..j]
      invariant forall k :: j <= k < dst.Length ==> dst[k] == old(dst[k])
      decreases n - i
    {
      DecodeStep(src[i..n]);
      assert src[i..n][0] == src[i];
      assert src[i..n][FormLength(src[i])..] == src[i + FormLength(src[i])..n];
      var codepoint;
      codepoint, i := ReadForm(src, i, n);
      assert us[j] == us[j..][0] == codepoint;
      dst[j] := codepoint;
      j := j + 1;
      assert us[j..] == us[j - 1..][1..];
    }
    DecodeStep(src[i..n]);
    dst[j] := 0;
  }

  /** utf8_to_wide_char gives back every string of non-zero units that wide_char_to_utf8 has room for. */
  method ThereAndBack(bytes: array<bv8>, src: array<Unit>, dst: array<Unit>, ghost us: seq<Unit>) returns (j: nat)
    requires WideString(src, |us|) && src[..|us|] == us && |us| < dst.Length
    requires |Encode(us)| + 4 <= bytes.Length < TWO_32
    modifies bytes, dst
    ensures j == |us| && dst[..j] == us && dst[j] == 0
  {
    hide Encode, Decode, Complete;
    var m, k := WideCharToUtf8(bytes, src, bytes.Length, us);
    EncodePrefix(us, k);
    assert us[..|us|] == us && src[..|us|] == us;
    DecodeEncode(us);
    EncodeNoZero(us);
    j := Utf8ToWideChar(dst, bytes, dst.Length, Encode(us));
  }

  lemma {:induction false} EncodePrefix(us: seq<Unit>, k: nat)
    requires k <= |us|
    ensures Encode(us[..k]) <= Encode(us)
    ensures k < |us| ==> |Encode(us[..k])| < |Encode(us)|
    decreases |us| - k
  {
    assert us[..|us|] == us;
    if k < |us| {
      EncodeNext(us, k);
      EncodePrefix(us, k + 1);
    }
  }
}
