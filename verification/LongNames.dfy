/** Long file names on FAT32: a name is split into records of thirteen units, stored last part first, and joined again
    (Microsoft FAT32 File System Specification v1.03, "FAT Long Directory Entries"). */
module LongNames {
  import opened Machine
  import opened DynamicArrayModule
  import opened Utf8

  const PART: nat := 13

  /** fat32_lfn_record_t, as far as names go. */
  datatype LfnRecord =
    LfnRecord(order: byte, attributes: bv8, checksum: bv8, part1: seq<Unit>, part2: seq<Unit>, part3: seq<Unit>)

  const ATTRIBUTE_LFN: bv8 := 0x0F
  const LAST_ORDER: byte := 0x45

  predicate WellFormed(r: LfnRecord) {
    |r.part1| == 5 && |r.part2| == 6 && |r.part3| == 2
  }

  function Units(r: LfnRecord): (us: seq<Unit>)
    ensures WellFormed(r) ==> |us| == PART
  {
    r.part1 + r.part2 + r.part3
  }

  predicate Ascii(name: seq<bv8>) {
    forall i :: 0 <= i < |name| ==> 0 < name[i] < 0x80
  }

  predicate NoZero(name: seq<bv8>) {
    forall i :: 0 <= i < |name| ==> name[i] != 0
  }

  function Records(length: nat): nat {
    (length + PART - 1) / PART
  }

  /** The k-th thirteen bytes of a name. */
  function Part(name: seq<bv8>, k: nat): (p: seq<bv8>)
    requires k < Records(|name|)
    ensures 0 < |p| <= PART
  {
    name[PART * k..if PART * k + PART <= |name| then PART * k + PART else |name|]
  }

  function Padded(us: seq<Unit>): (r: seq<Unit>)
    requires |us| <= PART
    ensures |r| == PART
  {
    us + seq(PART - |us|, _ => 0)
  }

  /** No part ends inside a form. */
  predicate Splittable(name: seq<bv8>) {
    forall k :: 0 <= k < Records(|name|) ==> Complete(Part(name, k))
  }

  /** The record for the k-th part of a name. */
  function RecordOf(name: seq<bv8>, checksum: bv8, k: nat): (r: LfnRecord)
    requires k < Records(|name|) && Splittable(name)
    ensures WellFormed(r) && Units(r) == Padded(Decode(Part(name, k)))
  {
    var us := Padded(Decode(Part(name, k)));
    assert us == us[..5] + us[5..11] + us[11..];
    LfnRecord(if PART * k + PART >= |name| then LAST_ORDER else (k + 1) % 256, ATTRIBUTE_LFN, checksum,
      us[..5], us[5..11], us[11..])
  }

  /** The records of a name in the order in which they are stored. */
  function Stored(name: seq<bv8>, checksum: bv8): (rs: seq<LfnRecord>)
    requires Splittable(name)
    ensures |rs| == Records(|name|)
  {
    seq(Records(|name|), i requires 0 <= i < Records(|name|) => RecordOf(name, checksum, Records(|name|) - 1 - i))
  }

  function Reverse<T>(s: seq<T>): (r: seq<T>)
    ensures |r| == |s| && forall i :: 0 <= i < |s| ==> r[i] == s[|s| - 1 - i]
  {
    if s == [] then [] else Reverse(s[1..]) + [s[0]]
  }

  /** The units of all records, in order. */
  function Wide(rs: seq<LfnRecord>): (us: seq<Unit>)
    requires forall i :: 0 <= i < |rs| ==> WellFormed(rs[i])
    ensures |us| == PART * |rs|
  {
    if rs == [] then [] else Wide(rs[..|rs| - 1]) + Units(rs[|rs| - 1])
  }

  function UpToZero(us: seq<Unit>): (r: seq<Unit>)
    ensures |r| <= |us|
  {
    if us == [] || us[0] == 0 then [] else [us[0]] + UpToZero(us[1..])
  }

  /** The name that the records spell. */
  function Joined(rs: seq<LfnRecord>): seq<bv8>
    requires forall i :: 0 <= i < |rs| ==> WellFormed(rs[i])
  {
    Encode(UpToZero(Wide(rs)))
  }

  // ---- which names survive ----

  /** All bytes before the last part are ASCII, and the last part is in shortest forms. */
  predicate Survives(name: seq<bv8>)
    requires name != [] && Splittable(name)
  {
    var last := Records(|name|) - 1;
    Ascii(name[..PART * last]) && Shortest(Part(name, last))
  }

  /** The name without its first thirteen bytes. */
  function Rest(name: seq<bv8>): seq<bv8>
    requires name != []
  {
    name[|Part(name, 0)|..]
  }

  lemma RestPart(name: seq<bv8>, k: nat)
    requires name != [] && k + 1 < Records(|name|)
    ensures |Part(name, 0)| == PART && k < Records(|Rest(name)|) && Part(Rest(name), k) == Part(name, k + 1)
  {
  }

  lemma RestParts(name: seq<bv8>)
    requires name != [] && Splittable(name)
    ensures Records(|Rest(name)|) == Records(|name|) - 1 && name == Part(name, 0) + Rest(name)
    ensures forall k :: 0 <= k < Records(|Rest(name)|) ==> Part(Rest(name), k) == Part(name, k + 1)
    ensures Splittable(Rest(name))
  {
    hide Complete;
    assert Records(|Rest(name)|) == Records(|name|) - 1;
    forall k | 0 <= k < Records(|Rest(name)|)
      ensures Part(Rest(name), k) == Part(name, k + 1) && Complete(Part(name, k + 1))
    {
      RestPart(name, k);
    }
  }

  lemma SurvivesRest(name: seq<bv8>)
    requires |name| > PART && Splittable(name)
    ensures Splittable(Rest(name)) && (Survives(name) <==> Ascii(Part(name, 0)) && Survives(Rest(name)))
  {
    hide Complete, Shortest;
    RestParts(name);
    var last := Records(|name|) - 1;
    assert name[..PART * last] == Part(name, 0) + Rest(name)[..PART * (last - 1)];
    AsciiBoth(Part(name, 0), Rest(name)[..PART * (last - 1)]);
  }

  lemma AsciiBoth(a: seq<bv8>, b: seq<bv8>)
    ensures Ascii(a + b) <==> Ascii(a) && Ascii(b)
  {
    if Ascii(a + b) {
      assert forall i :: 0 <= i < |a| ==> a[i] == (a + b)[i];
      assert forall i :: 0 <= i < |b| ==> b[i] == (a + b)[|a| + i];
    }
  }

  /** The units of a name's parts, each padded with zeros. */
  function WideName(name: seq<bv8>): (us: seq<Unit>)
    requires Splittable(name)
    decreases |name|
  {
    if name == [] then []
    else
      RestParts(name);
      Padded(Decode(Part(name, 0))) + WideName(Rest(name))
  }

  lemma {:induction false} WideFirst(rs: seq<LfnRecord>)
    requires rs != [] && forall i :: 0 <= i < |rs| ==> WellFormed(rs[i])
    ensures Wide(rs) == Units(rs[0]) + Wide(rs[1..])
  {
    hide WellFormed, Units;
    if |rs| > 1 {
      var init := rs[..|rs| - 1];
      WideFirst(init);
      assert rs[1..][..|rs| - 2] == init[1..];
    }
  }

  lemma {:induction false} WideIsName(name: seq<bv8>, rs: seq<LfnRecord>)
    requires Splittable(name) && |rs| == Records(|name|)
    requires forall i :: 0 <= i < |rs| ==> WellFormed(rs[i]) && Units(rs[i]) == Padded(Decode(Part(name, i)))
    ensures Wide(rs) == WideName(name)
    decreases |name|
  {
    if name != [] {
      hide WellFormed, Units, Decode, Splittable, Padded;
      RestParts(name);
      WideFirst(rs);
      WideIsName(Rest(name), rs[1..]);
    }
  }

  lemma {:induction false} UpToZeroConcat(a: seq<Unit>, b: seq<Unit>)
    ensures UpToZero(a + b) == if |UpToZero(a)| < |a| then UpToZero(a) else a + UpToZero(b)
  {
    hide UpToZero;
    UpToZeroStep(a);
    if a == [] {
      assert a + b == b;
    } else {
      UpToZeroStep(a + b);
      assert (a + b)[1..] == a[1..] + b;
      UpToZeroConcat(a[1..], b);
      assert a + UpToZero(b) == [a[0]] + (a[1..] + UpToZero(b));
    }
  }

  lemma UpToZeroStep(us: seq<Unit>)
    ensures us == [] || us[0] == 0 ==> UpToZero(us) == []
    ensures us != [] && us[0] != 0 ==> UpToZero(us) == [us[0]] + UpToZero(us[1..])
  {
  }

  lemma {:induction false} UpToZeroFacts(us: seq<Unit>)
    ensures us[..|UpToZero(us)|] == UpToZero(us) && (|UpToZero(us)| < |us| ==> us[|UpToZero(us)|] == 0)
    ensures forall i :: 0 <= i < |UpToZero(us)| ==> us[i] != 0
  {
    if us != [] && us[0] != 0 {
      UpToZeroFacts(us[1..]);
      forall i | 0 < i < |UpToZero(us)| ensures us[i] != 0 {
        assert us[1..][i - 1] == us[i];
      }
    }
  }

  lemma {:induction false} AsciiShortest(bs: seq<bv8>)
    requires Ascii(bs)
    ensures Complete(bs) && Shortest(bs) && |Decode(bs)| == |bs|
  {
    if bs != [] {
      AsciiForm(bs[0]);
      AsciiShortest(bs[1..]);
    }
  }

  lemma AsciiForm(b: bv8)
    requires 0 < b < 0x80
    ensures FormLength(b) == 1
  {
  }

  /** A zero unit shows as a zero byte. */
  lemma {:induction false} ZeroEncoded(us: seq<Unit>, i: nat)
    requires i < |us| && us[i] == 0
    ensures !NoZero(Encode(us))
    decreases |us|
  {
    var last := us[|us| - 1];
    if i == |us| - 1 {
      assert Encode(us)[|Encode(us)| - 1] == 0;
    } else {
      ZeroEncoded(us[..|us| - 1], i);
      var k :| 0 <= k < |Encode(us[..|us| - 1])| && Encode(us[..|us| - 1])[k] == 0;
      assert Encode(us)[k] == 0;
    }
  }

  /** What a part contributes is never longer than the part, and as long only if it has no zero unit. */
  lemma PartShorter(part: seq<bv8>)
    requires Complete(part) && |part| <= PART
    ensures
      var us := Decode(part);
      && |Encode(UpToZero(us))| <= |part| && (|UpToZero(us)| < |us| ==> |Encode(UpToZero(us))| < |part|)
      && |UpToZero(Padded(us))| == |UpToZero(us)| && UpToZero(Padded(us)) == UpToZero(us)
  {
    hide Decode, Encode, Complete;
    var us := Decode(part);
    UpToZeroFacts(us);
    DecodedShorter(part, |UpToZero(us)|);
    UpToZeroConcat(us, seq(PART - |us|, _ => 0));
    assert us[..|us|] == us;
  }

  /** The last part comes back if and only if it is in shortest forms. */
  lemma LastPart(part: seq<bv8>)
    requires Complete(part) && |part| <= PART && NoZero(part)
    ensures Encode(UpToZero(Decode(part))) == part <==> Shortest(part)
  {
    hide Decode, Encode, Complete, Shortest, UpToZero, NoZero;
    var us := Decode(part);
    UpToZeroFacts(us);
    PartShorter(part);
    EncodeDecode(part);
    assert us[..|us|] == us;
    if Shortest(part) && |UpToZero(us)| < |us| {
      ZeroEncoded(us, |UpToZero(us)|);
    }
  }

  /** A part of thirteen non-zero units comes back exactly if it is ASCII. */
  lemma FullPart(part: seq<bv8>)
    requires Complete(part) && |part| == PART && NoZero(part)
    ensures Ascii(part) <==> |UpToZero(Decode(part))| == PART && Encode(Decode(part)) == part
    ensures |UpToZero(Decode(part))| == PART ==>
      UpToZero(Decode(part)) == Decode(part) && |Encode(Decode(part))| == PART
  {
    hide Decode, Encode, Complete, Shortest, UpToZero;
    var us := Decode(part);
    UpToZeroFacts(us);
    PartShorter(part);
    EncodeDecode(part);
    LastPart(part);
    assert us[..|us|] == us;
    if Ascii(part) {
      AsciiShortest(part);
    } else if |UpToZero(us)| == PART && Encode(us) == part {
      EncodeTight(us);
    }
  }

  /** The spelled name is never longer than the name, and it is the name exactly under the condition above. */
  lemma {:induction false} SpelledExactly(name: seq<bv8>)
    requires name != [] && NoZero(name) && Splittable(name)
    ensures |Encode(UpToZero(WideName(name)))| <= |name|
    ensures Encode(UpToZero(WideName(name))) == name <==> Survives(name)
    decreases |name|
  {
    hide Decode, Encode, Complete, Shortest, UpToZero, Padded, Splittable, Survives;
    var first, rest := Part(name, 0), Rest(name);
    FirstComplete(name);
    var us := Decode(first);
    RestParts(name);
    PartShorter(first);
    UpToZeroConcat(Padded(us), WideName(rest));
    if |name| <= PART {
      assert WideName(rest) == [] && first == name;
      SurvivesShort(name);
      LastPart(name);
      assert Padded(us) + [] == Padded(us);
    } else {
      SurvivesRest(name);
      FullPart(first);
      SpelledExactly(rest);
      if |UpToZero(us)| == PART {
        assert Padded(us) == us by { PaddedFull(us); }
        EncodeConcat(us, UpToZero(WideName(rest)));
        PairsEqual(Encode(us), Encode(UpToZero(WideName(rest))), first, rest);
      }
    }
  }

  lemma PaddedFull(us: seq<Unit>)
    requires |us| == PART
    ensures Padded(us) == us
  {
  }

  lemma FirstComplete(name: seq<bv8>)
    requires name != [] && Splittable(name)
    ensures Complete(Part(name, 0))
  {
  }

  lemma SurvivesShort(name: seq<bv8>)
    requires 0 < |name| <= PART && Splittable(name)
    ensures Part(name, 0) == name && Complete(name) && (Survives(name) <==> Shortest(name))
  {
    hide Complete, Shortest;
    assert Records(|name|) == 1 && Part(name, 0) == name;
  }

  /** Split, stored last part first, read back to front and joined, a name is itself again if and only if all bytes
      before its last part are ASCII and the last part is in shortest forms. */
  lemma NameSurvives(name: seq<bv8>, checksum: bv8)
    requires name != [] && NoZero(name) && Splittable(name)
    ensures
      var rs := Reverse(Stored(name, checksum));
      && (forall i :: 0 <= i < |rs| ==> WellFormed(rs[i]))
      && |Joined(rs)| <= |name| && (Joined(rs) == name <==> Survives(name))
  {
    hide RecordOf, Stored, Wide, Splittable, Survives;
    StoredReversed(name, checksum);
    WideIsName(name, Reverse(Stored(name, checksum)));
    SpelledExactly(name);
  }

  lemma StoredReversed(name: seq<bv8>, checksum: bv8)
    requires Splittable(name)
    ensures
      var rs := Reverse(Stored(name, checksum));
      |rs| == Records(|name|) && forall i :: 0 <= i < |rs| ==> rs[i] == RecordOf(name, checksum, i) && WellFormed(rs[i])
  {
    hide RecordOf, Reverse;
    var s := Stored(name, checksum);
    forall i | 0 <= i < |s| ensures Reverse(s)[i] == RecordOf(name, checksum, i) {
      assert Reverse(s)[i] == s[|s| - 1 - i];
    }
  }

  /** ASCII names survive. */
  lemma AsciiSurvives(name: seq<bv8>)
    requires name != [] && Ascii(name)
    ensures NoZero(name) && Splittable(name) && Survives(name)
  {
    forall k | 0 <= k < Records(|name|) ensures Complete(Part(name, k)) && Shortest(Part(name, k)) {
      AsciiShortest(Part(name, k));
    }
  }

  lemma CutParts(name: seq<bv8>)
    requires name == [0xD0, 0xB0] + seq(12, _ => 0x61)
    ensures NoZero(name) && Splittable(name) && !Survives(name)
  {
    hide Shortest;
    var first := Part(name, 0);
    assert first[2..] == seq(11, _ => 0x61) && Part(name, 1) == [0x61];
    AsciiShortest(first[2..]);
    AsciiShortest(Part(name, 1));
    assert name[..PART][0] == 0xD0;
  }

  /** A two-byte form (U+0430) and twelve letters: the first part has only twelve units, so the name is cut after it. */
  lemma CutExample(checksum: bv8)
    ensures
      var name := [0xD0, 0xB0] + seq(12, _ => 0x61);
      && NoZero(name) && Splittable(name)
      && (forall i :: 0 <= i < |Stored(name, checksum)| ==> WellFormed(Reverse(Stored(name, checksum))[i]))
      && Joined(Reverse(Stored(name, checksum))) != name
  {
    hide Stored, Reverse, Joined, WellFormed, Complete;
    var name: seq<bv8> := [0xD0, 0xB0] + seq(12, _ => 0x61);
    CutParts(name);
    NameSurvives(name, checksum);
  }

  // ---- splitting, reading back and joining ----

  method StrLen(name: array<bv8>, ghost bs: seq<bv8>) returns (n: nat)
    requires ByteString(name, |bs|) && name[..|bs|] == bs
    ensures n == |bs|
  {
    n := 0;
    while name[n] != 0
      invariant n <= |bs|
      decreases |bs| - n
    {
      n := n + 1;
    }
  }

  lemma PartFacts(name: seq<bv8>, k: nat)
    requires NoZero(name) && Splittable(name) && k < Records(|name|)
    ensures NoZero(Part(name, k)) && Complete(Part(name, k))
  {
  }

  lemma TextCopied(text: seq<bv8>, part: seq<bv8>)
    requires |part| < |text| && NoZero(part) && forall i :: 0 <= i < |text| ==>
      text[i] == if i < |part| then part[i] else 0
    ensures text[..|part|] == part && text[|part|] == 0 && forall i :: 0 <= i < |part| ==> text[i] != 0
  {
  }

  lemma PaddedIs(units: seq<Unit>, us: seq<Unit>)
    requires |us| <= PART < |units| && units[..|us|] == us && forall i :: |us| <= i < |units| ==> units[i] == 0
    ensures units[..PART] == Padded(us) && units[..PART] == units[..5] + units[5..11] + units[11..13]
    ensures units[..PART][..5] == units[..5] && units[..PART][5..11] == units[5..11]
    ensures units[..PART][11..] == units[11..13]
  {
  }

  /** Thirteen bytes of a name, or what is left of it, as padded units. */
  method DecodePart(name: array<bv8>, i: nat, n: nat, ghost part: seq<bv8>) returns (tempWide: array<Unit>)
    requires n == |part| <= PART && i + n <= name.Length && name[i..i + n] == part && NoZero(part) && Complete(part)
    ensures fresh(tempWide) && tempWide.Length == 27 && tempWide[..PART] == Padded(Decode(part))
    ensures Padded(Decode(part)) == tempWide[..5] + tempWide[5..11] + tempWide[11..13]
  {
    hide Decode, Complete;
    var tempUtf8 := new bv8[14](_ => 0);
    forall b | 0 <= b < n {
      tempUtf8[b] := name[i + b];
    }
    TextCopied(tempUtf8[..], part);
    tempWide := new bv16[27](_ => 0);
    var j := Utf8ToWideChar(tempWide, tempUtf8, 27, part);
    PaddedIs(tempWide[..], Decode(part));
  }

  lemma PartSlice(name: seq<bv8>, k: nat)
    requires k < Records(|name|)
    ensures
      var i := PART * k;
      var n := if |name| - i < PART then |name| - i else PART;
      0 <= n && i + n <= |name| && name[i..i + n] == Part(name, k)
  {
  }

  lemma PrefixSlice(s: seq<bv8>, length: nat, lo: nat, hi: nat)
    requires lo <= hi <= length <= |s|
    ensures s[..length][lo..hi] == s[lo..hi]
  {
  }

  /** The k-th record of a name of the given length. */
  method MakeRecord(name: array<bv8>, length: nat, checksum: bv8, k: nat) returns (r: LfnRecord)
    requires length <= name.Length && NoZero(name[..length]) && Splittable(name[..length]) && k < Records(length)
    ensures r == RecordOf(name[..length], checksum, k)
  {
    hide RecordOf, Padded, Decode, Complete, Part, NoZero, Splittable;
    ghost var bs := name[..length];
    var i := PART * k;
    PartSlice(bs, k);
    var n := if length - i < PART then length - i else PART;
    ghost var part := Part(bs, k);
    PrefixSlice(name[..], length, i, i + n);
    PartFacts(bs, k);
    var tempWide := DecodePart(name, i, n, part);
    r := LfnRecord(if i + PART >= length then LAST_ORDER else (i / PART + 1) % 256, ATTRIBUTE_LFN, checksum,
      tempWide[..5], tempWide[5..11], tempWide[11..13]);
    RecordParts(bs, checksum, k, r, tempWide[..PART]);
    assert name[..length] == bs;
  }

  lemma RecordParts(name: seq<bv8>, checksum: bv8, k: nat, r: LfnRecord, us: seq<Unit>)
    requires k < Records(|name|) && Splittable(name) && us == Padded(Decode(Part(name, k)))
    requires r == LfnRecord(if PART * k + PART >= |name| then LAST_ORDER else (k + 1) % 256, ATTRIBUTE_LFN,
      checksum, us[..5], us[5..11], us[11..])
    ensures r == RecordOf(name, checksum, k)
  {
  }

  /** The first k parts, the last of them in front. */
  ghost function StoredFrom(name: seq<bv8>, checksum: bv8, k: nat): (rs: seq<LfnRecord>)
    requires k <= Records(|name|) && Splittable(name)
    ensures |rs| == k
  {
    seq(k, i requires 0 <= i < k => RecordOf(name, checksum, k - 1 - i))
  }

  lemma StoredNext(name: seq<bv8>, checksum: bv8, k: nat)
    requires k < Records(|name|) && Splittable(name)
    ensures StoredFrom(name, checksum, k + 1) == [RecordOf(name, checksum, k)] + StoredFrom(name, checksum, k)
    ensures StoredFrom(name, checksum, Records(|name|)) == Stored(name, checksum)
  {
    hide RecordOf;
  }

  /** One round of the loop that splits a name. */
  method PushPart(result: DynamicArray<LfnRecord>, filename: array<bv8>, length: nat, checksum: bv8, k: nat,
    ghost bs: seq<bv8>)
    requires result.Valid() && length <= filename.Length && filename[..length] == bs && NoZero(bs) && Splittable(bs)
    requires k < Records(length) <= 255 && result.Contents() == StoredFrom(bs, checksum, k)
    modifies result, result.buffer
    ensures result.Valid() && result.Contents() == StoredFrom(bs, checksum, k + 1)
    ensures result.buffer == old(result.buffer) || fresh(result.buffer)
  {
    hide RecordOf, Stored, DynamicArray.Contents, Splittable, NoZero;
    StoredNext(bs, checksum, k);
    var record := MakeRecord(filename, length, checksum, k);
    result.PushFront(record);
  }

  /** fat32_split_filename_to_lfn. */
  method Split(filename: array<bv8>, checksum: bv8, ghost bs: seq<bv8>) returns (result: DynamicArray<LfnRecord>)
    requires ByteString(filename, |bs|) && filename[..|bs|] == bs && Splittable(bs) && 0 < |bs| <= 255 * PART
    ensures fresh(result) && fresh(result.buffer) && result.Valid() && result.Contents() == Stored(bs, checksum)
  {
    hide RecordOf, Stored, StoredFrom, DynamicArray.Contents, DynamicArray.Valid, Splittable;
    var length := StrLen(filename, bs);
    result := new DynamicArray();
    var i := 0;
    ghost var k := 0;
    while i < length
      invariant i == PART * k && k <= Records(length)
      invariant fresh(result) && fresh(result.buffer) && result.Valid() && filename[..length] == bs
      invariant result.Contents() == StoredFrom(bs, checksum, k)
      decreases length - i
    {
      PushPart(result, filename, length, checksum, i / PART, bs);
      i := i + PART;
      k := k + 1;
    }
    StoredNext(bs, checksum, 0);
  }

  /** A directory entry: a record of a long name, or a file's own record by its first byte and its attributes. */
  datatype DirEntry = Long(record: LfnRecord) | File(name0: byte, attributes: bv8)

  function FirstByte(e: DirEntry): byte {
    match e
    case Long(r) => r.order
    case File(name0, _) => name0
  }

  /** Byte 0x0B of an entry, on which the reader decides. */
  function TypeByte(e: DirEntry): bv8 {
    match e
    case Long(r) => r.attributes
    case File(_, attributes) => attributes
  }

  /** An entry that the reader takes for a file. */
  predicate NamesFile(e: DirEntry) {
    e.File? && e.name0 != 0 && e.attributes != 0xE5 && e.attributes != 0x0F
  }

  /** No record ends the directory, and each is of the type of a long name. */
  predicate Readable(stored: seq<LfnRecord>) {
    forall i :: 0 <= i < |stored| ==> stored[i].order != 0 && stored[i].attributes == 0x0F
  }

  /** The last part comes first and is marked; the others are numbered from one. */
  lemma StoredOrders(name: seq<bv8>, checksum: bv8)
    requires Splittable(name) && |name| <= 255 * PART
    ensures
      var rs := Stored(name, checksum);
      && Readable(rs)
      && forall i :: 0 <= i < |rs| ==>
        rs[i].checksum == checksum && rs[i].order == if i == 0 then 0x45 else |rs| - i
  {
    hide Splittable, Decode, Padded;
    var rs := Stored(name, checksum);
    forall i | 0 <= i < |rs|
      ensures rs[i].order != 0 && rs[i].attributes == 0x0F && rs[i].checksum == checksum
      ensures rs[i].order == if i == 0 then 0x45 else |rs| - i
    {
      assert rs[i] == RecordOf(name, checksum, |rs| - 1 - i);
    }
  }

  /** The reader puts every record of a long name in front of those before it, until it comes to a file's record. */
  method ReadBack(entries: seq<DirEntry>, ghost stored: seq<LfnRecord>)
    returns (lfn: DynamicArray<LfnRecord>, found: bool)
    requires |stored| <= 255 && |stored| < |entries| && Readable(stored) && NamesFile(entries[|stored|])
    requires forall i :: 0 <= i < |stored| ==> entries[i] == Long(stored[i])
    ensures fresh(lfn) && fresh(lfn.buffer) && lfn.Valid() && lfn.Contents() == Reverse(stored) && found
  {
    hide DynamicArray.Contents;
    lfn := new DynamicArray();
    found := false;
    for i := 0 to |entries|
      invariant i <= |stored| && !found
      invariant fresh(lfn) && fresh(lfn.buffer) && lfn.Valid() && lfn.Contents() == Reverse(stored[..i])
    {
      if FirstByte(entries[i]) == 0 {
        break;
      }
      var entryType := TypeByte(entries[i]);
      if entryType == 0xE5 {
        continue;
      } else if entryType == 0x0F {
        ReverseNext(stored, i);
        lfn.PushFront(entries[i].record);
      } else {
        assert stored[..|stored|] == stored;
        found := true;
        break;
      }
    }
  }

  lemma ReverseNext<T>(s: seq<T>, i: nat)
    requires i < |s|
    ensures Reverse(s[..i + 1]) == [s[i]] + Reverse(s[..i])
  {
    hide Reverse;
  }

  /** The units of the records side by side, followed by a terminator. */
  method JoinWide(lfn: DynamicArray<LfnRecord>) returns (wide: array<Unit>)
    requires lfn.Valid() && forall i :: 0 <= i < lfn.count ==> WellFormed(lfn.Contents()[i])
    ensures fresh(wide) && wide.Length == PART * lfn.count + 1
    ensures wide[..] == Wide(lfn.Contents()) + [0]
  {
    hide DynamicArray.Contents, WellFormed, Units;
    ghost var rs := lfn.Contents();
    var n := lfn.count;
    wide := new Unit[PART * n + 1](_ => 0);
    for i := 0 to n
      invariant lfn.Valid() && lfn.Contents() == rs
      invariant wide[..PART * i] == Wide(rs[..i]) && wide[PART * n] == 0
    {
      var r := lfn.Get(i);
      assert rs[..i + 1][..i] == rs[..i];
      PutRecord(wide, PART * i, r);
    }
    assert rs[..n] == rs;
  }

  method PutRecord(wide: array<Unit>, at: nat, r: LfnRecord)
    requires at + PART <= wide.Length && WellFormed(r)
    modifies wide
    ensures wide[..at + PART] == old(wide[..at]) + Units(r)
    ensures forall i :: at + PART <= i < wide.Length ==> wide[i] == old(wide[i])
  {
    forall i | 0 <= i < 5 {
      wide[at + i] := r.part1[i];
    }
    forall i | 0 <= i < 6 {
      wide[at + 5 + i] := r.part2[i];
    }
    forall i | 0 <= i < 2 {
      wide[at + 11 + i] := r.part3[i];
    }
  }

  /** What the directory reader makes of the records before an entry; a name that does not fit is cut off. */
  method JoinName(lfn: DynamicArray<LfnRecord>) returns (filename: array<bv8>, length: nat)
    requires lfn.Valid() && 0 < lfn.count <= 255 && forall i :: 0 <= i < lfn.count ==> WellFormed(lfn.Contents()[i])
    ensures fresh(filename) && length < filename.Length && filename[length] == 0
    ensures filename[..length] <= Joined(lfn.Contents())
    ensures |Joined(lfn.Contents())| <= 2 * PART * lfn.count - 2 ==> filename[..length] == Joined(lfn.Contents())
  {
    hide DynamicArray.Contents, DynamicArray.Valid, WellFormed, Units, UpToZero, Encode, Wide;
    ghost var us := UpToZero(Wide(lfn.Contents()));
    var wide := JoinWide(lfn);
    UpToZeroFacts(Wide(lfn.Contents()));
    var size := 2 * (PART * lfn.count + 1);
    filename := new bv8[size];
    ghost var k;
    length, k := WideCharToUtf8(filename, wide, size, us);
    EncodePrefix(us, k);
    assert us[..|us|] == us;
  }

  /** The records in the order in which they are written to the directory: always the first, which then goes. What
      clz yields on zero matters to the deque, see ClzOfZeroDecides. */
  method Written(records: DynamicArray<LfnRecord>, clzOfZero: nat) returns (stored: seq<LfnRecord>)
    requires records.Valid() && 29 <= clzOfZero <= 31
    modifies records, records.buffer
    ensures stored == old(records.Contents())
  {
    hide DynamicArray.Contents, DynamicArray.Valid;
    stored := [];
    ghost var rs := records.Contents();
    while records.count != 0
      invariant records.Valid() && records.buffer == old(records.buffer) && stored + records.Contents() == rs
      decreases records.count
    {
      stored := stored + [records.Get(0)];
      records.PopFront(clzOfZero);
    }
  }

  /** What is written to the directory for a name: its records, and then the file's own. */
  method Write(name: array<bv8>, checksum: bv8, file: DirEntry, clzOfZero: nat, ghost bs: seq<bv8>)
    returns (entries: seq<DirEntry>)
    requires ByteString(name, |bs|) && name[..|bs|] == bs && Splittable(bs) && 0 < |bs| <= 255 * PART
    requires 29 <= clzOfZero <= 31
    ensures
      var stored := Stored(bs, checksum);
      && |entries| == |stored| + 1 && entries[|stored|] == file
      && forall i :: 0 <= i < |stored| ==> entries[i] == Long(stored[i])
  {
    hide DynamicArray.Contents, DynamicArray.Valid, Stored, Splittable;
    var records := Split(name, checksum, bs);
    var stored := Written(records, clzOfZero);
    entries := seq(|stored|, i requires 0 <= i < |stored| => Long(stored[i])) + [file];
  }

  /** What is read back from the directory. */
  method Load(entries: seq<DirEntry>, ghost stored: seq<LfnRecord>) returns (filename: array<bv8>, length: nat)
    requires 0 < |stored| <= 255 && forall i :: 0 <= i < |stored| ==> WellFormed(Reverse(stored)[i])
    requires |stored| < |entries| && Readable(stored) && NamesFile(entries[|stored|])
    requires forall i :: 0 <= i < |stored| ==> entries[i] == Long(stored[i])
    ensures fresh(filename) && length < filename.Length && filename[length] == 0
    ensures |Joined(Reverse(stored))| <= PART * |stored| ==> filename[..length] == Joined(Reverse(stored))
  {
    hide DynamicArray.Contents, DynamicArray.Valid, Reverse, Joined, WellFormed;
    var lfn, found := ReadBack(entries, stored);
    filename, length := JoinName(lfn);
  }

  /** A file's name written to a directory and read back from it is itself again exactly if it survives the split. */
  method WriteAndReadBack(name: array<bv8>, checksum: bv8, file: DirEntry, clzOfZero: nat, ghost bs: seq<bv8>)
    returns (filename: array<bv8>, length: nat)
    requires ByteString(name, |bs|) && name[..|bs|] == bs && Splittable(bs) && 0 < |bs| <= 255 * PART
    requires NamesFile(file) && 29 <= clzOfZero <= 31
    ensures fresh(filename) && length < filename.Length && filename[length] == 0
    ensures filename[..length] == bs <==> Survives(bs)
  {
    hide Stored, Splittable, Survives, Reverse, Joined, WellFormed, Readable, NamesFile;
    var entries := Write(name, checksum, file, clzOfZero, bs);
    NameSurvives(bs, checksum);
    StoredOrders(bs, checksum);
    filename, length := Load(entries, Stored(bs, checksum));
  }
}
