/** Files over cluster chains on a FAT32 volume: taking and releasing clusters, reading and writing. */
module Fat32 {
  import opened Machine
  import opened FatModel

  // ---- positions in a file ----

  /** Byte k of the file that lies in the given clusters. */
  function FileByte(clusters: seq<seq<byte>>, cs: seq<int>, size: nat, k: nat): (b: byte)
    requires Sized(clusters, size) && k / size < |cs| && 0 <= cs[k / size] < |clusters|
  {
    clusters[cs[k / size]][k % size]
  }

  ghost predicate Sized(clusters: seq<seq<byte>>, size: nat) {
    size > 0 && forall c :: 0 <= c < |clusters| ==> |clusters[c]| == size
  }

  lemma Place(i: nat, size: nat, o: nat)
    requires o < size
    ensures (i * size + o) / size == i && (i * size + o) % size == o
  {
    RemainderUnique(i * size + o, size, i, o);
  }

  /** Only the bytes from start up to start + w of the file have been overwritten, with the first w bytes of the
      buffer. */
  ghost predicate Written(before: seq<seq<byte>>, after: seq<seq<byte>>, cs: seq<int>, size: nat, buffer: seq<byte>,
    start: nat, w: nat) {
    && Sized(before, size) && Sized(after, size) && |after| == |before| && w <= |buffer|
    && (forall i :: 0 <= i < |cs| ==> 0 <= cs[i] < |before|)
    && (forall c :: 0 <= c < |before| && c !in cs ==> after[c] == before[c])
    && forall k: nat :: k / size < |cs| ==>
      FileByte(after, cs, size, k) ==
        if start <= k < start + w then buffer[k - start] else FileByte(before, cs, size, k)
  }

  lemma WrittenNothing(before: seq<seq<byte>>, cs: seq<int>, size: nat, buffer: seq<byte>, start: nat)
    requires Sized(before, size) && forall i :: 0 <= i < |cs| ==> 0 <= cs[i] < |before|
    ensures Written(before, before, cs, size, buffer, start, 0)
  {
  }

  /** A further cluster at the end of the file keeps what it holds. */
  lemma WrittenGrows(before: seq<seq<byte>>, after: seq<seq<byte>>, cs: seq<int>, size: nat, buffer: seq<byte>,
    start: nat, w: nat, t: int)
    requires Written(before, after, cs, size, buffer, start, w) && t !in cs && 0 <= t < |before|
    requires start + w <= |cs| * size
    ensures Written(before, after, cs + [t], size, buffer, start, w)
  {
    forall k: nat | k / size < |cs| + 1
      ensures FileByte(after, cs + [t], size, k) ==
        if start <= k < start + w then buffer[k - start] else FileByte(before, cs + [t], size, k)
    {
      if k / size == |cs| {
        assert k == |cs| * size + k % size;
      } else {
        assert FileByte(after, cs + [t], size, k) == FileByte(after, cs, size, k);
        assert FileByte(before, cs + [t], size, k) == FileByte(before, cs, size, k);
      }
    }
  }

  lemma WrittenAlong(before: seq<seq<byte>>, after: seq<seq<byte>>, cs: seq<int>, cs': seq<int>, size: nat,
    buffer: seq<byte>, start: nat, w: nat)
    requires Written(before, after, cs, size, buffer, start, w) && start + w <= |cs| * size
    requires cs' == cs ||
      (|cs'| == |cs| + 1 && cs' == cs + [cs'[|cs|]] && cs'[|cs|] !in cs && 0 <= cs'[|cs|] < |before|)
    ensures Written(before, after, cs', size, buffer, start, w)
  {
    if cs' != cs {
      WrittenGrows(before, after, cs, size, buffer, start, w, cs'[|cs|]);
    }
  }

  /** n more bytes have been written into the i-th cluster, at the place where the last ones ended. */
  lemma WrittenMore(before: seq<seq<byte>>, after: seq<seq<byte>>, cs: seq<int>, size: nat, buffer: seq<byte>,
    start: nat, w: nat, i: nat, position: nat, n: nat, cluster: seq<byte>)
    requires Written(before, after, cs, size, buffer, start, w) && i < |cs| && w + n <= |buffer|
    requires forall a, b :: 0 <= a < b < |cs| ==> cs[a] != cs[b]
    requires start + w == i * size + position && position + n <= size == |cluster|
    requires forall o :: 0 <= o < size ==>
      cluster[o] == if position <= o < position + n then buffer[w + o - position] else after[cs[i]][o]
    ensures Written(before, after[cs[i] := cluster], cs, size, buffer, start, w + n)
  {
    hide FileByte;
    var next := after[cs[i] := cluster];
    forall k: nat | k / size < |cs|
      ensures FileByte(next, cs, size, k) ==
        if start <= k < start + w + n then buffer[k - start] else FileByte(before, cs, size, k)
    {
      assert FileByte(after, cs, size, k) ==
        if start <= k < start + w then buffer[k - start] else FileByte(before, cs, size, k);
      ByteChanged(after, cs, size, i, cluster, k);
    }
  }

  lemma ByteChanged(after: seq<seq<byte>>, cs: seq<int>, size: nat, i: nat, cluster: seq<byte>, k: nat)
    requires Sized(after, size) && |cluster| == size && i < |cs| && k / size < |cs|
    requires forall j :: 0 <= j < |cs| ==> 0 <= cs[j] < |after|
    requires forall a, b :: 0 <= a < b < |cs| ==> cs[a] != cs[b]
    ensures
      var o := k - i * size;
      && FileByte(after[cs[i] := cluster], cs, size, k) ==
        (if 0 <= o < size then cluster[o] else FileByte(after, cs, size, k))
      && (0 <= o < size ==> FileByte(after, cs, size, k) == after[cs[i]][o])
  {
    hide FileByte;
    if i * size <= k < i * size + size {
      Place(i, size, k - i * size);
      ByteInside(after, cs, size, i, cluster, k);
    } else {
      ByteOutside(after, cs, size, i, cluster, k);
    }
  }

  lemma ByteInside(after: seq<seq<byte>>, cs: seq<int>, size: nat, i: nat, cluster: seq<byte>, k: nat)
    requires Sized(after, size) && |cluster| == size && i < |cs| && 0 <= cs[i] < |after|
    requires i * size <= k < i * size + size
    ensures k / size == i && FileByte(after[cs[i] := cluster], cs, size, k) == cluster[k - i * size]
    ensures FileByte(after, cs, size, k) == after[cs[i]][k - i * size]
  {
    Place(i, size, k - i * size);
  }

  lemma ByteOutside(after: seq<seq<byte>>, cs: seq<int>, size: nat, i: nat, cluster: seq<byte>, k: nat)
    requires Sized(after, size) && |cluster| == size && i < |cs| && 0 <= cs[i] < |after|
    requires forall a, b :: 0 <= a < b < |cs| ==> cs[a] != cs[b]
    requires !(i * size <= k < i * size + size) && k / size < |cs| && 0 <= cs[k / size] < |after|
    ensures FileByte(after[cs[i] := cluster], cs, size, k) == FileByte(after, cs, size, k)
  {
    assert k == k / size * size + k % size;
    assert k / size != i;
  }

  /** Clusters in the order in which the table links them, up to one that ends the chain or breaks it, or until they
      hold more than n bytes. A chain that goes round in a cycle can be walked for ever. */
  ghost predicate Walk(fat: Fat, cs: seq<int>, size: nat, n: nat) {
    && cs != [] && (forall i :: 0 <= i < |cs| ==> 0 <= cs[i] < |fat|)
    && (forall i :: 0 <= i < |cs| - 1 ==>
      Val(fat, cs[i]) == cs[i + 1] && !IsLast(Val(fat, cs[i])) && !IsError(Val(fat, cs[i])))
    && (IsLast(Val(fat, cs[|cs| - 1])) || IsError(Val(fat, cs[|cs| - 1])) || |cs| * size > n)
  }

  lemma WalkShorter(fat: Fat, cs: seq<int>, size: nat, n: nat, m: nat)
    requires Walk(fat, cs, size, n) && m <= n
    ensures Walk(fat, cs, size, m) && 0 <= cs[|cs| - 1] < |fat|
  {
  }

  lemma WalkAt(fat: Fat, cs: seq<int>, size: nat, n: nat, i: nat)
    requires Walk(fat, cs, size, n) && i < |cs|
    ensures 0 <= cs[i] < |fat| && (IsLast(Val(fat, cs[i])) || IsError(Val(fat, cs[i])) ==> i == |cs| - 1)
    ensures i == |cs| - 1 ==> IsLast(Val(fat, cs[i])) || IsError(Val(fat, cs[i])) || n < |cs| * size
  {
  }

  /** Whatever the table, as long as its entries lead to clusters, every read has its walk. */
  lemma {:induction false} WalkExists(fat: Fat, start: int, size: nat, n: nat) returns (cs: seq<int>)
    requires InRange(fat) && 2 <= start < |fat| && size > 0
    ensures Walk(fat, cs, size, n) && cs[0] == start
    decreases n
  {
    hide Val, IsLast, IsError;
    var next := Val(fat, start);
    if IsLast(next) || IsError(next) || n < size {
      cs := [start];
    } else {
      var rest := WalkExists(fat, next, size, n - size);
      OneMore(|rest|, size);
      cs := [start] + rest;
    }
  }

  lemma OneMore(i: nat, size: nat)
    ensures (i + 1) * size == i * size + size
  {
  }

  function Min(a: int, b: int): (r: int)
    ensures r <= a && r <= b && (r == a || r == b)
  {
    if a < b then a else b
  }

  class FileInfo {
    var clusterNum: uint32
    var size: uint32
    const directory: bool
  }

  class Volume {
    var fat: Fat
    var mirror: Fat
    var clusters: seq<seq<byte>>
    var nextFree: uint32
    const fatCount: nat
    const hasFsinfo: bool
    const rootCluster: uint32
    const size: nat             // bytes in a cluster

    ghost predicate Valid()
      reads this
    {
      && |mirror| == |clusters| == |fat| && 2 <= |fat| <= BAD
      && Sized(clusters, size)
      && (fatCount == 2 ==> mirror == fat)
      && Val(fat, 0) != EMPTY && Val(fat, 1) != EMPTY
    }

    /** Where the search for free clusters starts. */
    function Hint(): nat
      reads `nextFree
    {
      if hasFsinfo then nextFree else rootCluster
    }

    /** fat32_fat_at_sync. */
    method FatAt(c: uint32) returns (v: uint32)
      requires c < |fat|
      ensures v == Val(fat, c)
    {
      AndLowMask(fat[c], 28);
      assert Pow2(28) == 0x1000_0000 by {
        Pow2Values();
        assert Pow2(29) == 2 * Pow2(28);
      }
      v := And(fat[c], 0x0FFF_FFFF);
    }

    /** fat32_fat_write_sync: the second copy, if there is one, is kept the same. */
    method FatWrite(c: uint32, v: uint32)
      requires |mirror| == |fat| && c < |fat|
      modifies `fat, `mirror
      ensures fat == old(fat)[c := v] && |mirror| == |fat|
      ensures fatCount == 2 && old(mirror == fat) ==> mirror == fat
    {
      fat := fat[c := v];
      if fatCount == 2 {
        mirror := mirror[c := v];
      }
    }

    /** fat32_take_new_cluster_sync, given two free entries from the hint on. */
    method TakeNewCluster(prev: uint32) returns (taken: uint32)
      requires Valid() && prev < |fat| && (prev != 0 ==> Val(fat, prev) != EMPTY)
      requires FreeFrom(fat, Hint()) >= 2
      modifies `fat, `mirror, `nextFree
      ensures Valid() && 2 <= taken < |fat| && old(Val(fat, taken)) == EMPTY
      ensures (if hasFsinfo then old(nextFree) else rootCluster) <= taken
      ensures forall c :: (if hasFsinfo then old(nextFree) else rootCluster) <= c < taken ==> old(Val(fat, c)) != EMPTY
      ensures fat == Taken(old(fat), prev, taken)
      ensures hasFsinfo ==> taken < nextFree < |fat| && Val(fat, nextFree) == EMPTY
      ensures FreeFrom(fat, Hint()) == old(FreeFrom(fat, Hint())) - 1
    {
      var current := if hasFsinfo then nextFree else rootCluster;
      taken := 0;
      while true
        invariant fat == old(fat) && mirror == old(mirror) && old(Hint()) <= current <= |fat|
        invariant FreeFrom(fat, current) + (if taken != 0 then 1 else 0) == FreeFrom(fat, old(Hint()))
        invariant taken != 0 ==> 2 <= taken < current && old(Hint()) <= taken && Val(fat, taken) == EMPTY
        invariant forall c :: old(Hint()) <= c < current && c != taken ==> Val(fat, c) != EMPTY
        decreases |fat| - current
      {
        FreeFromNext(fat, current);
        var v := FatAt(current);
        if v == EMPTY {
          if taken != 0 {
            break;
          }
          taken := current;
        }
        current := current + 1;
      }
      if prev != 0 {
        FatWrite(prev, taken);
      }
      FatWrite(taken, LAST);
      TakenCounts(old(fat), prev, taken, old(Hint()), current);
      if hasFsinfo {
        nextFree := current;
      }
    }

    /** fat32_release_clusters_sync; it ends even where the table goes round in a cycle. */
    method ReleaseClusters(start: uint32) returns (ok: bool, ghost path: seq<int>)
      requires Valid() && InRange(fat) && 2 <= start < |fat|
      modifies `fat, `mirror
      ensures Valid() && Visited(old(fat), start, path) && Emptied(old(fat), fat, path)
      ensures ok <==> path != [] && IsLast(old(Val(fat, path[|path| - 1])))
      ensures !ok ==> var c := Following(old(fat), start, path); IsError(old(Val(fat, c))) || c in path
    {
      hide Visited, Emptied, Releasing, Following, InRange, FreeFrom;
      var num := start;
      var value := FatAt(start);
      path := [];
      ReleaseBegins(fat, start);
      while !IsError(value)
        invariant Valid() && 2 <= num < |fat| == old(|fat|) && value == Val(fat, num)
        invariant Releasing(old(fat), fat, start, path, num)
        decreases |fat| - FreeFrom(fat, 0)
      {
        ReleaseNext(old(fat), fat, start, path, num);
        EmptiedCounts(fat, num);
        FatWrite(num, EMPTY);
        path := path + [num];
        if IsLast(value) {
          break;
        }
        num := value;
        value := FatAt(num);
      }
      ok := !IsError(value);
      if !ok {
        ReleaseStops(old(fat), fat, start, path, num);
      }
    }

    /** fat32_erase_file_sync, but for the directory entry: the file's chain becomes free. On a broken or cyclic
        chain it fails after having freed what it visited, and the file keeps its size and first cluster. */
    method EraseFile(info: FileInfo, ghost cs: seq<int>) returns (ok: bool, ghost path: seq<int>)
      requires Valid() && InRange(fat) && (info.clusterNum != 0 ==> 2 <= info.clusterNum < |fat|)
      modifies `fat, `mirror, info
      ensures Valid() && Emptied(old(fat), fat, path)
      ensures if ok then info.size == 0 && info.clusterNum == 0
        else info.size == old(info.size) && info.clusterNum == old(info.clusterNum)
      ensures old(info.clusterNum) == 0 ==> ok && path == []
      ensures old(info.clusterNum) != 0 ==> Visited(old(fat), old(info.clusterNum), path)
      ensures old(info.clusterNum) != 0 ==> (ok <==> path != [] && IsLast(old(Val(fat, path[|path| - 1]))))
      ensures old(info.clusterNum != 0 && IsChain(fat, cs) && cs[0] == info.clusterNum) ==> ok && path == cs
    {
      path := [];
      if info.clusterNum != 0 {
        ok, path := ReleaseClusters(info.clusterNum);
        if IsChain(old(fat), cs) && cs[0] == info.clusterNum {
          WholeChain(old(fat), cs, path);
        }
        if !ok {
          return;
        }
      }
      info.size, info.clusterNum := 0, 0;
      ok := true;
    }

    /** fat32_next_cluster_sync along a path. */
    method NextCluster(value: uint32, ghost cs: seq<int>, ghost i: nat) returns (num: uint32, value': uint32)
      requires Walk(fat, cs, size, 0) && i + 1 < |cs| && value == Val(fat, cs[i])
      ensures num == cs[i + 1] && value' == Val(fat, num)
    {
      num := value;
      assert num == cs[i + 1];
      value' := FatAt(num);
    }

    /** The skipping loop of fat32_read_file: to the cluster that holds byte start. */
    method SkipTo(clusterNum: uint32, start: nat, ghost cs: seq<int>)
      returns (found: bool, num: uint32, value: uint32, position: nat, ghost i: nat)
      requires Valid() && Walk(fat, cs, size, start) && cs[0] == clusterNum
      ensures found ==>
        i < |cs| && num == cs[i] && value == Val(fat, num) && start == i * size + position && position < size
      ensures !found ==> start >= |cs| * size
    {
      num := clusterNum;
      value := FatAt(num);
      position := start;
      i := 0;
      while position >= size
        invariant i < |cs| && num == cs[i] && value == Val(fat, num) && start == i * size + position
        decreases position
      {
        if IsLast(value) || IsError(value) {
          assert |cs| * size == i * size + size;
          return false, num, value, position, i;
        }
        OneMore(i, size);
        num, value := NextCluster(value, cs, i);
        position := position - size;
        i := i + 1;
      }
      found := true;
    }

    /** One round of fat32_read_file: the bytes of one cluster from a position on. */
    method ReadPart(buffer: array<byte>, index: nat, num: uint32, position: nat, n: nat, ghost cs: seq<int>,
      ghost i: nat)
      requires Valid() && i < |cs| && num == cs[i] < |clusters| && position + n <= size && index + n <= buffer.Length
      modifies buffer
      ensures forall k :: 0 <= k < buffer.Length && !(index <= k < index + n) ==> buffer[k] == old(buffer[k])
      ensures forall k :: index <= k < index + n ==> HoldsByte(buffer[k], cs, i * size + position + k - index)
    {
      var temp := clusters[num];
      forall k | 0 <= k < n {
        buffer[index + k] := temp[position + k];
      }
      forall k | index <= k < index + n ensures HoldsByte(buffer[k], cs, i * size + position + k - index) {
        Place(i, size, position + k - index);
      }
    }

    /** Byte k of the file is b. */
    ghost predicate HoldsByte(b: byte, cs: seq<int>, k: int)
      reads this
    {
      && Sized(clusters, size) && k >= 0 && k / size < |cs| && 0 <= cs[k / size] < |clusters|
      && FileByte(clusters, cs, size, k) == b
    }

    /** fat32_read_file: as many bytes as are asked for, but not more than the file's size or than its clusters hold;
        chains that are broken or go round in a cycle included. */
    method ReadFile(info: FileInfo, start: nat, buffer: array<byte>, bufferSize: nat, ghost cs: seq<int>)
      returns (ok: bool, ghost n: nat)
      requires Valid() && cs != [] && cs[0] == info.clusterNum && bufferSize <= buffer.Length
      requires Walk(fat, cs, size, start + Min(bufferSize, info.size))
      modifies buffer
      ensures forall k :: n <= k < buffer.Length ==> buffer[k] == old(buffer[k])
      ensures n <= buffer.Length && forall k :: 0 <= k < n ==> HoldsByte(buffer[k], cs, start + k)
      ensures ReadResult(ok, n, Min(bufferSize, info.size), start, |cs|, size, !IsError(Val(fat, cs[|cs| - 1])))
    {
      hide FileByte, ReadResult, HoldsByte, Walk, Val, IsLast, IsError;
      n := 0;
      WalkShorter(fat, cs, size, start + Min(bufferSize, info.size), start);
      WalkShorter(fat, cs, size, start, 0);
      ghost var ended := !IsError(Val(fat, cs[|cs| - 1]));
      var found, num, value, position, i := SkipTo(info.clusterNum, start, cs);
      if !found {
        ReadBeyond(Min(bufferSize, info.size), start, |cs|, size, ended);
        return false, 0;
      }
      var free: nat := Min(bufferSize, info.size);
      ghost var want := free;
      var index: nat := 0;
      while !IsError(value)
        invariant Valid() && 0 <= i < |cs| && num == cs[i] < |fat| && value == Val(fat, num)
        invariant 0 <= position < size && index + free == want && start + index == i * size + position
        invariant index > 0 ==> free > 0
        invariant forall k :: index <= k < buffer.Length ==> buffer[k] == old(buffer[k])
        invariant forall k :: 0 <= k < index ==> HoldsByte(buffer[k], cs, start + k)
        decreases |cs| - i
      {
        WalkAt(fat, cs, size, start + want, i);
        var bytesToRead := Min(size - position, free);
        ReadPart(buffer, index, num, position, bytesToRead, cs, i);
        ReadTo(want, start, |cs|, size, i, position, index, bytesToRead, ended, IsLast(value));
        index := index + bytesToRead;
        free := free - bytesToRead;
        if free == 0 {
          return true, index;
        }
        if IsLast(value) {
          return true, index;
        }
        position := 0;
        num, value := NextCluster(value, cs, i);
        i := i + 1;
      }
      WalkAt(fat, cs, size, start + want, i);
      ReadBroken(want, start, |cs|, size, position, index);
      n := index;
      ok := !IsError(value);
    }

    /** The position of the writer: at the i-th cluster, and knowing whether the chain goes on. */
    ghost predicate At(cs: seq<int>, i: nat, num: uint32, value: uint32)
      reads `fat
    {
      && Terminated(fat, cs) && i < |cs| && num == cs[i]
      && (value == Val(fat, num) || (IsLast(value) && IsLast(Val(fat, num))))
    }

    /** One step of the writer along the chain, which takes a new cluster at its end. */
    method Extend(num: uint32, value: uint32, ghost fat0: Fat, ghost cs0: seq<int>, ghost cs: seq<int>, ghost i: nat)
      returns (num': uint32, value': uint32, ghost cs': seq<int>)
      requires Valid() && Grown(fat0, fat, cs0, cs) && At(cs, i, num, value) && !IsError(value)
      requires IsLast(value) ==> FreeFrom(fat, Hint()) >= 2
      modifies `fat, `mirror, `nextFree
      ensures Valid() && |fat| == old(|fat|) && Grown(fat0, fat, cs0, cs') && At(cs', i + 1, num', value')
      ensures
        if i + 1 < |cs| then cs' == cs && fat == old(fat)
        else cs' == cs + [num'] && num' !in cs && EndsLast(fat, cs')
      ensures FreeFrom(fat, Hint()) + |cs'| == old(FreeFrom(fat, Hint())) + |cs|
    {
      hide Grown, FreeFrom;
      StepsOn(fat, cs, i, num, value);
      if IsLast(value) {
        num' := TakeNewCluster(num);
        value' := value;
        cs' := cs + [num'];
        GrownMoreRun(fat0, old(fat), cs0, cs, num');
      } else {
        num' := value;
        value' := FatAt(num');
        cs' := cs;
      }
    }

    /** Every cluster the writer still needs can be taken: the search for one must find another free entry behind it. */
    ghost predicate Room(cs: seq<int>, bytes: nat)
      reads `fat, `nextFree
    {
      size > 0 && (|cs| >= (bytes + size - 1) / size || FreeFrom(fat, Hint()) + |cs| > (bytes + size - 1) / size)
    }

    lemma RoomForNext(cs: seq<int>, bytes: nat, i: nat)
      requires Room(cs, bytes) && |cs| == i + 1 && (i + 1) * size < bytes
      ensures FreeFrom(fat, Hint()) >= 2
    {
      var n := (bytes + size - 1) / size;
      assert n * size >= bytes by {
        assert n * size + (bytes + size - 1) % size == bytes + size - 1;
      }
      MultipleBounds(n - (i + 1), size);
      assert (n - (i + 1)) * size == n * size - (i + 1) * size;
    }

    /** The writer at work: the chain has grown up to its place at most, or is too broken to grow. */
    ghost predicate Writing(fat0: Fat, cs0: seq<int>, bytes: nat, cs: seq<int>, i: nat, num: uint32, value: uint32)
      reads `fat, `nextFree
    {
      && Grown(fat0, fat, cs0, cs) && At(cs, i, num, value)
      && (|cs| == |cs0| || |cs| == i + 1)
      && (EndsLast(fat, cs) ==> Room(cs, bytes))
      && (EndsLast(fat, cs) || (cs == cs0 && fat == fat0))
    }

    /** The next place of the writer. */
    method StepOn(num: uint32, value: uint32, ghost fat0: Fat, ghost cs0: seq<int>, ghost bytes: nat,
      ghost cs: seq<int>, ghost i: nat)
      returns (num': uint32, value': uint32, ghost cs': seq<int>)
      requires Valid() && Writing(fat0, cs0, bytes, cs, i, num, value) && !IsError(value) && (i + 1) * size < bytes
      modifies `fat, `mirror, `nextFree
      ensures Valid() && |fat| == old(|fat|) && Writing(fat0, cs0, bytes, cs', i + 1, num', value')
      ensures cs' == cs || (cs' == cs + [num'] && num' !in cs && |cs| == i + 1)
    {
      hide Grown, FreeFrom, IsRun;
      StepsOn(fat, cs, i, num, value);
      if IsLast(value) {
        RoomForNext(cs, bytes, i);
      }
      num', value', cs' := Extend(num, value, fat0, cs0, cs, i);
    }

    /** The first cluster of the file, taken if it has none. */
    method FirstPlace(clusterNum: uint32, bytes: nat, ghost cs0: seq<int>)
      returns (num: uint32, value: uint32, ghost cs: seq<int>)
      requires Valid() && 0 < bytes
      requires if clusterNum == 0 then cs0 == [] else Terminated(fat, cs0) && cs0[0] == clusterNum
      requires cs0 == [] || EndsLast(fat, cs0) ==> Room(cs0, bytes)
      modifies `fat, `mirror, `nextFree
      ensures Valid() && |fat| == old(|fat|) && Writing(old(fat), cs0, bytes, cs, 0, num, value)
      ensures cs != [] && num == cs[0]
    {
      hide Grown, FreeFrom;
      if clusterNum != 0 {
        num := clusterNum;
        value := FatAt(num);
        cs := cs0;
        GrownNot(fat, cs);
      } else {
        RoomForFirst(bytes);
        num := TakeNewCluster(0);
        value := LAST;
        cs := [num];
        GrownFirst(old(fat), num);
        OneChain(old(fat), num);
      }
    }

    lemma RoomForFirst(bytes: nat)
      requires Room([], bytes) && 0 < bytes
      ensures FreeFrom(fat, Hint()) >= 2
    {
      var n := (bytes + size - 1) / size;
      assert n * size + (bytes + size - 1) % size == bytes + size - 1;
      if n <= 0 {
        MultipleBounds(n, size);
      }
    }

    /** The beginning of fat32_write_file_sync: the first cluster, and on to the one that holds byte start. */
    method FindPlace(clusterNum: uint32, start: nat, bytes: nat, ghost cs0: seq<int>)
      returns (first: uint32, num: uint32, value: uint32, position: nat, ghost cs: seq<int>, ghost i: nat)
      requires Valid() && start < bytes
      requires if clusterNum == 0 then cs0 == [] else Terminated(fat, cs0) && cs0[0] == clusterNum
      requires cs0 == [] || EndsLast(fat, cs0) ==> Room(cs0, bytes)
      modifies `fat, `mirror, `nextFree
      ensures Valid() && |fat| == old(|fat|) && Writing(old(fat), cs0, bytes, cs, i, num, value)
      ensures start == i * size + position && 0 <= position && (!IsError(value) ==> position < size)
      ensures cs != [] && first == cs[0]
    {
      hide Grown, FreeFrom, Writing, Room;
      num, value, cs := FirstPlace(clusterNum, bytes, cs0);
      first := num;
      i := 0;
      position := start;
      while position >= size
        invariant Valid() && |fat| == old(|fat|) && Writing(old(fat), cs0, bytes, cs, i, num, value)
        invariant 0 <= position && start == i * size + position && cs != [] && first == cs[0]
        decreases position
      {
        if IsError(value) {
          return first, num, value, position, cs, i;
        }
        num, value, cs := StepOn(num, value, old(fat), cs0, bytes, cs, i);
        position := position - size;
        i := i + 1;
      }
    }

    /** Bytes of the buffer are written over a cluster from a position on. */
    method WritePart(buffer: array<byte>, index: nat, num: uint32, position: nat, n: nat,
      ghost clusters0: seq<seq<byte>>, ghost cs: seq<int>, ghost i: nat, ghost start: nat)
      requires Valid() && num < |clusters| && position + n <= size && index + n <= buffer.Length
      requires i < |cs| && num == cs[i] && (forall a, b :: 0 <= a < b < |cs| ==> cs[a] != cs[b])
      requires Written(clusters0, clusters, cs, size, buffer[..], start, index) && start + index == i * size + position
      modifies `clusters
      ensures Valid() && |clusters| == |clusters0|
      ensures Written(clusters0, clusters, cs, size, buffer[..], start, index + n)
    {
      hide FileByte;
      var temp := clusters[num];
      var written := temp[..position] + buffer[index..index + n] + temp[position + n..];
      WrittenMore(clusters0, clusters, cs, size, buffer[..], start, index, i, position, n, written);
      clusters := clusters[num := written];
    }

    lemma WriterAt(fat0: Fat, cs0: seq<int>, bytes: nat, cs: seq<int>, i: nat, num: uint32, value: uint32)
      requires Writing(fat0, cs0, bytes, cs, i, num, value)
      ensures i < |cs| && num == cs[i] && (forall a :: 0 <= a < |cs| ==> 2 <= cs[a] < |fat|)
      ensures forall a, b :: 0 <= a < b < |cs| ==> cs[a] != cs[b]
      ensures Grown(fat0, fat, cs0, cs) && (|cs| == |cs0| || |cs| == i + 1)
      ensures EndsLast(fat, cs) || (cs == cs0 && fat == fat0)
      ensures IsError(value) ==> !EndsLast(fat, cs)
      ensures (i + 1) * size <= |cs| * size
    {
      if IsError(value) {
        ErrorAtEnd(fat, cs, i, num, value);
      }
      MultipleBounds(|cs| - (i + 1), size);
      assert (|cs| - (i + 1)) * size == |cs| * size - (i + 1) * size;
    }

    /** The writer at work on a file that lies in cs, with the first w bytes of the buffer written. */
    ghost predicate Busy(fat0: Fat, cs0: seq<int>, clusters0: seq<seq<byte>>, buffer: seq<byte>, start: nat, bytes: nat,
      w: nat, cs: seq<int>, i: nat, num: uint32, value: uint32)
      reads this
    {
      && Valid() && Writing(fat0, cs0, bytes, cs, i, num, value)
      && Written(clusters0, clusters, cs, size, buffer, start, w)
    }

    /** One cluster read, changed and written back. */
    method WriteRound(buffer: array<byte>, index: nat, num: uint32, value: uint32, position: nat, n: nat,
      ghost fat0: Fat, ghost cs0: seq<int>, ghost clusters0: seq<seq<byte>>, ghost start: nat, ghost bytes: nat,
      ghost cs: seq<int>, ghost i: nat)
      requires position + n <= size && index + n <= buffer.Length && start + index == i * size + position
      requires Busy(fat0, cs0, clusters0, buffer[..], start, bytes, index, cs, i, num, value)
      modifies `clusters
      ensures Busy(fat0, cs0, clusters0, buffer[..], start, bytes, index + n, cs, i, num, value)
    {
      hide Writing, Written;
      WriterAt(fat0, cs0, bytes, cs, i, num, value);
      WritePart(buffer, index, num, position, n, clusters0, cs, i, start);
    }

    /** On to the next cluster of the file, which may have to be taken. */
    method MoveOn(num: uint32, value: uint32, ghost buffer: seq<byte>, ghost index: nat, ghost fat0: Fat,
      ghost cs0: seq<int>, ghost clusters0: seq<seq<byte>>, ghost start: nat, ghost bytes: nat, ghost cs: seq<int>,
      ghost i: nat)
      returns (num': uint32, value': uint32, ghost cs': seq<int>)
      requires !IsError(value) && start + index == (i + 1) * size < bytes
      requires Busy(fat0, cs0, clusters0, buffer, start, bytes, index, cs, i, num, value)
      modifies `fat, `mirror, `nextFree
      ensures Busy(fat0, cs0, clusters0, buffer, start, bytes, index, cs', i + 1, num', value') && cs <= cs'
    {
      hide Writing, Written;
      WriterAt(fat0, cs0, bytes, cs, i, num, value);
      num', value', cs' := StepOn(num, value, fat0, cs0, bytes, cs, i);
      WriterAt(fat0, cs0, bytes, cs', i + 1, num', value');
      WrittenSame(clusters0, clusters, cs, size, buffer, start, index);
      WrittenAlong(clusters0, clusters, cs, cs', size, buffer, start, index);
    }

    /** The writing loop of fat32_write_file_sync, from a place that has been found. */
    method WriteOn(num0: uint32, value0: uint32, position0: nat, start: nat, buffer: array<byte>, bufferSize: nat,
      ghost fat0: Fat, ghost cs0: seq<int>, ghost cs1: seq<int>, ghost i0: nat)
      returns (ok: bool, ghost cs: seq<int>, ghost n: nat)
      requires Valid() && 0 < bufferSize <= buffer.Length
      requires Writing(fat0, cs0, start + bufferSize, cs1, i0, num0, value0)
      requires start == i0 * size + position0 && (!IsError(value0) ==> position0 < size)
      modifies `fat, `mirror, `nextFree, `clusters
      ensures n <= bufferSize && Valid() && Written(old(clusters), clusters, cs, size, buffer[..], start, n)
      ensures ok ==> n == bufferSize && start + n <= |cs| * size && (|cs| > |cs0| ==> (|cs| - 1) * size < start + n)
      ensures Grown(fat0, fat, cs0, cs) && (EndsLast(fat, cs) || (cs == cs0 && fat == fat0))
      ensures !ok ==> !EndsLast(fat, cs)
      ensures !EndsLast(fat, cs) ==> (ok <==> start + bufferSize <= (|cs| - 1) * size)
      ensures cs1 <= cs
    {
      hide Grown, FreeFrom, Writing, Room, FileByte, Written, Busy;
      var num, value, position := num0, value0, position0;
      cs := cs1;
      ghost var i, bytes := i0, start + bufferSize;
      var index, left := 0, bufferSize;
      BusyFirst(fat0, cs0, buffer[..], start, bytes, cs, i, num, value);
      while !IsError(value)
        invariant 0 <= i && 0 <= index && 0 < left && index + left == bufferSize && 0 <= position && size > 0
        invariant Busy(fat0, cs0, old(clusters), buffer[..], start, bytes, index, cs, i, num, value)
        invariant start + index == i * size + position && (!IsError(value) ==> position < size)
        invariant cs1 <= cs
        decreases left
      {
        var bytesToWrite := Min(size - position, left);
        WriteRound(buffer, index, num, value, position, bytesToWrite, fat0, cs0, old(clusters), start, bytes, cs, i);
        index := index + bytesToWrite;
        left := left - bytesToWrite;
        if left == 0 {
          BusyLast(fat0, cs0, old(clusters), buffer[..], start, bytes, index, cs, i, num, value);
          return true, cs, index;
        }
        position := 0;
        assert start + index == (i + 1) * size;
        num, value, cs := MoveOn(num, value, buffer[..], index, fat0, cs0, old(clusters), start, bytes, cs, i);
        i := i + 1;
      }
      BusyLast(fat0, cs0, old(clusters), buffer[..], start, bytes, index, cs, i, num, value);
      return false, cs, index;
    }

    lemma BusyFirst(fat0: Fat, cs0: seq<int>, buffer: seq<byte>, start: nat, bytes: nat, cs: seq<int>, i: nat,
      num: uint32, value: uint32)
      requires Valid() && Writing(fat0, cs0, bytes, cs, i, num, value)
      ensures Busy(fat0, cs0, clusters, buffer, start, bytes, 0, cs, i, num, value) && size > 0
    {
      hide Writing, Written;
      WriterAt(fat0, cs0, bytes, cs, i, num, value);
      WrittenNothing(clusters, cs, size, buffer, start);
    }

    lemma BusyLast(fat0: Fat, cs0: seq<int>, clusters0: seq<seq<byte>>, buffer: seq<byte>, start: nat, bytes: nat,
      w: nat, cs: seq<int>, i: nat, num: uint32, value: uint32)
      requires Busy(fat0, cs0, clusters0, buffer, start, bytes, w, cs, i, num, value)
      ensures Valid() && Written(clusters0, clusters, cs, size, buffer, start, w) && Grown(fat0, fat, cs0, cs)
      ensures EndsLast(fat, cs) || (cs == cs0 && fat == fat0)
      ensures IsError(value) ==> !EndsLast(fat, cs)
      ensures (i + 1) * size <= |cs| * size && (|cs| > |cs0| ==> |cs| == i + 1)
      ensures !EndsLast(fat, cs) ==> if IsError(value) then i == |cs| - 1 else (i + 1) * size <= (|cs| - 1) * size
    {
      hide Writing, Written;
      WriterAt(fat0, cs0, bytes, cs, i, num, value);
      WriterStops(fat0, cs0, bytes, cs, i, num, value);
    }

    /** On a chain without a proper end the writer meets the error at the last cluster, and not before. */
    lemma WriterStops(fat0: Fat, cs0: seq<int>, bytes: nat, cs: seq<int>, i: nat, num: uint32, value: uint32)
      requires Valid() && Writing(fat0, cs0, bytes, cs, i, num, value)
      ensures !EndsLast(fat, cs) ==> if IsError(value) then i == |cs| - 1 else (i + 1) * size <= (|cs| - 1) * size
    {
      if IsError(value) {
        ErrorAtEnd(fat, cs, i, num, value);
      } else {
        StepsOn(fat, cs, i, num, value);
        if !EndsLast(fat, cs) {
          MultipleBounds(|cs| - 1 - (i + 1), size);
          assert (|cs| - 1 - (i + 1)) * size == (|cs| - 1) * size - (i + 1) * size;
        }
      }
    }

    /** fat32_write_file_sync, but for the directory entry: the bytes lie in the file, which has taken just the
        clusters it needs; a broken chain makes it fail and then neither the table nor the file's size has changed. */
    method WriteFile(info: FileInfo, start: nat, buffer: array<byte>, bufferSize: nat, ghost cs0: seq<int>)
      returns (ok: bool, ghost cs: seq<int>, ghost n: nat)
      requires Valid() && bufferSize <= buffer.Length && start + bufferSize < TWO_32
      requires if info.clusterNum == 0 then cs0 == [] else Terminated(fat, cs0) && cs0[0] == info.clusterNum
      requires bufferSize > 0 && (cs0 == [] || EndsLast(fat, cs0)) ==> Room(cs0, start + bufferSize)
      modifies `fat, `mirror, `nextFree, `clusters, info
      ensures Valid() && n <= bufferSize && Written(old(clusters), clusters, cs, size, buffer[..], start, n)
      ensures bufferSize == 0 ==>
        ok && cs == cs0 && fat == old(fat) && info.clusterNum == old(info.clusterNum) && info.size == old(info.size)
      ensures bufferSize > 0 ==> Grown(old(fat), fat, cs0, cs) && (ok <== EndsLast(fat, cs))
      ensures bufferSize > 0 && ok ==>
        n == bufferSize && start + n <= |cs| * size && (|cs| > |cs0| ==> (|cs| - 1) * size < start + n)
      ensures bufferSize > 0 && ok ==> info.clusterNum == cs[0]
      ensures bufferSize > 0 && ok && info.directory ==> info.size == old(info.size)
      ensures bufferSize > 0 && ok && !info.directory ==>
        && info.size >= old(info.size) && info.size >= start + bufferSize
        && (info.size == old(info.size) || info.size == start + bufferSize)
      ensures bufferSize > 0 && !EndsLast(fat, cs) ==> (ok <==> start + bufferSize <= (|cs| - 1) * size)
      ensures EndsLast(fat, cs) || (cs == cs0 && fat == old(fat))
      ensures !ok ==> info.clusterNum == old(info.clusterNum) && info.size == old(info.size)
    {
      hide Grown, FreeFrom, Writing, Room, FileByte, Written, Terminated;
      cs, n := cs0, 0;
      if bufferSize == 0 {
        RunRanges(fat, cs);
        WrittenNothing(clusters, cs, size, buffer[..], start);
        return true, cs0, 0;
      }
      var first, num, value, position;
      ghost var i;
      first, num, value, position, cs, i := FindPlace(info.clusterNum, start, start + bufferSize, cs0);
      ok, cs, n := WriteOn(num, value, position, start, buffer, bufferSize, old(fat), cs0, cs, i);
      GrownRange(old(fat), fat, cs0, cs);
      if ok {
        info.clusterNum := first;
        if !info.directory {
          info.size := Max(info.size, start + bufferSize);
        }
      }
    }

    /** What has been written to a file is what a read of the same range gives back. */
    method WriteThenRead(info: FileInfo, start: nat, buffer: array<byte>, bufferSize: nat, out: array<byte>,
      ghost cs0: seq<int>)
      returns (ok: bool)
      requires Valid() && 0 < bufferSize <= buffer.Length && start + bufferSize < TWO_32
      requires bufferSize <= out.Length && out != buffer && !info.directory
      requires if info.clusterNum == 0 then cs0 == [] else IsChain(fat, cs0) && cs0[0] == info.clusterNum
      requires Room(cs0, start + bufferSize)
      modifies `fat, `mirror, `nextFree, `clusters, info, out
      ensures ok && out[..bufferSize] == buffer[..bufferSize]
    {
      hide FreeFrom, Room, FileByte, Written, HoldsByte, ReadResult, Grown, Walk;
      ghost var cs, n;
      ok, cs, n := WriteFile(info, start, buffer, bufferSize, cs0);
      GrownChain(old(fat), fat, cs0, cs);
      ChainIsWalk(fat, cs);
      ghost var clusters0, text := old(clusters), buffer[..];
      ghost var m;
      ok, m := ReadFile(info, start, out, bufferSize, cs);
      WholeRead(m, bufferSize, info.size, start, |cs|, size, ok);
      ReadsBack(clusters0, cs, text, start, bufferSize, out[..]);
    }

    lemma ReadsBack(clusters0: seq<seq<byte>>, cs: seq<int>, text: seq<byte>, start: nat, n: nat, out: seq<byte>)
      requires Written(clusters0, clusters, cs, size, text, start, n) && n <= |out| && n <= |text|
      requires forall k :: 0 <= k < n ==> HoldsByte(out[k], cs, start + k)
      ensures out[..n] == text[..n]
    {
      hide FileByte, Written;
      forall k | 0 <= k < n ensures out[k] == text[k] {
        assert HoldsByte(out[k], cs, start + k);
        WrittenByte(clusters0, clusters, cs, size, text, start, n, k);
      }
    }
  }

  lemma ChainIsWalk(fat: Fat, cs: seq<int>)
    requires IsChain(fat, cs)
    ensures EndsLast(fat, cs) && Terminated(fat, cs) && forall size, n :: Walk(fat, cs, size, n)
  {
    forall i | 0 <= i < |cs| - 1
      ensures Val(fat, cs[i]) == cs[i + 1] && !IsLast(Val(fat, cs[i])) && !IsError(Val(fat, cs[i]))
    {
    }
  }

  lemma WholeRead(m: int, want: nat, fileSize: nat, start: nat, length: nat, size: nat, ok: bool)
    requires length > 0 && 0 < want && ReadResult(ok, m, Min(want, fileSize), start, length, size, true)
    requires start + want <= length * size && want <= fileSize
    ensures ok && m == want
  {
  }

  /** The size is not reduced by the position a read starts at, so a read can go past the end of the file. It does not
      exactly when it starts at the beginning, asks for nothing or for no more than there is, or the file fills its
      clusters. */
  lemma ReadStaysInFile(n: int, want: nat, fileSize: nat, start: nat, length: nat, size: nat)
    requires length > 0 && fileSize <= length * size
    requires ReadResult(true, n, Min(want, fileSize), start, length, size, true)
    ensures n == 0 || start + n <= fileSize <==>
      start == 0 || want == 0 || fileSize == 0 || start + want <= fileSize || fileSize == length * size
  {
  }

  lemma WrittenByte(before: seq<seq<byte>>, after: seq<seq<byte>>, cs: seq<int>, size: nat, buffer: seq<byte>,
    start: nat, w: nat, k: nat)
    requires Written(before, after, cs, size, buffer, start, w) && k < w && (start + k) / size < |cs|
    ensures FileByte(after, cs, size, start + k) == buffer[k]
  {
    assert start <= start + k < start + w;
  }

  /** A write leaves every byte of every other chain as it was. */
  lemma OtherFilesKeep(before: seq<seq<byte>>, after: seq<seq<byte>>, cs: seq<int>, size: nat, buffer: seq<byte>,
    start: nat, w: nat, other: seq<int>, k: nat)
    requires Written(before, after, cs, size, buffer, start, w) && Apart(cs, other)
    requires k / size < |other| && forall i :: 0 <= i < |other| ==> 0 <= other[i] < |before|
    ensures FileByte(after, other, size, k) == FileByte(before, other, size, k)
  {
    assert other[k / size] !in cs;
  }

  /** A write keeps the table a set of disjoint chains, in which only the file's own chain has grown. */
  lemma WriteKeepsLive(fat: Fat, fat': Fat, css: seq<seq<int>>, a: nat, cs: seq<int>)
    requires Live(fat, css) && a <= |css| && Grown(fat, fat', if a < |css| then css[a] else [], cs)
    ensures Live(fat', if a < |css| then css[a := cs] else css + [cs])
  {
    if a < |css| {
      GrownKeeps(fat, fat', css, a, cs);
    } else {
      BegunKeeps(fat, fat', css, cs);
    }
  }

  function Max(a: int, b: int): (r: int)
    ensures a <= r && b <= r && (r == a || r == b)
  {
    if a < b then b else a
  }

  lemma RunRanges(fat: Fat, cs: seq<int>)
    requires cs == [] || Terminated(fat, cs)
    ensures forall i :: 0 <= i < |cs| ==> 2 <= cs[i] < |fat|
  {
  }

  lemma GrownRange(fat: Fat, fat': Fat, cs: seq<int>, cs': seq<int>)
    requires Grown(fat, fat', cs, cs')
    ensures cs' != [] && 2 <= cs'[0] < |fat'| == |fat| <= BAD && (cs != [] ==> cs'[0] == cs[0])
  {
  }

  lemma WrittenSame(before: seq<seq<byte>>, after: seq<seq<byte>>, cs: seq<int>, size: nat, buffer: seq<byte>,
    start: nat, w: nat)
    requires Written(before, after, cs, size, buffer, start, w)
    ensures |before| == |after|
  {
  }

  ghost predicate EndsLast(fat: Fat, cs: seq<int>) {
    cs != [] && 0 <= cs[|cs| - 1] < |fat| && IsLast(Val(fat, cs[|cs| - 1]))
  }

  /** A run that ends, properly or at a bad or empty entry. */
  ghost predicate Terminated(fat: Fat, cs: seq<int>) {
    IsRun(fat, cs) && (IsLast(Val(fat, cs[|cs| - 1])) || IsError(Val(fat, cs[|cs| - 1])))
  }

  lemma StepsOn(fat: Fat, cs: seq<int>, i: nat, num: uint32, value: uint32)
    requires Terminated(fat, cs) && i < |cs| && num == cs[i] && !IsError(value)
    requires value == Val(fat, num) || (IsLast(value) && IsLast(Val(fat, num)))
    ensures IsLast(value) <==> i == |cs| - 1
    ensures i < |cs| - 1 ==> value == cs[i + 1] && 2 <= value < |fat|
    ensures 2 <= num < |fat| && Val(fat, num) != EMPTY
  {
    assert i < |cs| - 1 ==> Val(fat, cs[i]) == cs[i + 1];
  }

  lemma ErrorAtEnd(fat: Fat, cs: seq<int>, i: nat, num: uint32, value: uint32)
    requires Terminated(fat, cs) && i < |cs| && num == cs[i] && IsError(value) && value == Val(fat, num)
    ensures i == |cs| - 1
  {
    forall j | 0 <= j < |cs| - 1 ensures !IsError(Val(fat, cs[j])) {
      assert Val(fat, cs[j]) == cs[j + 1];
    }
  }

  lemma GrownMoreRun(fat: Fat, fat': Fat, cs: seq<int>, cs': seq<int>, t: int)
    requires Grown(fat, fat', cs, cs') && IsLast(Val(fat', cs'[|cs'| - 1])) && 2 <= t < |fat'| && Val(fat', t) == EMPTY
    ensures Grown(fat, Taken(fat', cs'[|cs'| - 1], t), cs, cs' + [t]) && t !in cs'
    ensures Terminated(Taken(fat', cs'[|cs'| - 1], t), cs' + [t])
  {
    GrownMore(fat, fat', cs, cs', t);
    FreeApart(fat', cs', t);
  }

  /** A read of `want` bytes from a position in a chain of the given length succeeds if it starts inside the chain, and
      reads up to its end; in a broken chain it must end before the last cluster. */
  ghost predicate ReadResult(ok: bool, n: int, want: int, start: nat, length: nat, size: nat, ended: bool)
    requires length > 0
  {
    if ended then ok == (start < length * size) && (ok ==> n == Min(want, length * size - start))
    else ok == (start < (length - 1) * size && start + want <= (length - 1) * size) && (ok ==> n == want)
  }

  lemma ReadBeyond(want: nat, start: nat, length: nat, size: nat, ended: bool)
    requires length > 0 && start >= length * size
    ensures ReadResult(false, 0, want, start, length, size, ended)
  {
    assert (length - 1) * size == length * size - size;
  }

  lemma ReadTo(want: nat, start: nat, length: nat, size: nat, i: nat, position: nat, index: nat, n: nat, ended: bool,
    last: bool)
    requires i < length && position < size && start + index == i * size + position && index <= want
    requires n == Min(size - position, want - index) && (i == length - 1 ==> ended) && (last ==> i == length - 1)
    requires i == length - 1 ==> last || start + want < length * size
    ensures index + n == want || last ==> ReadResult(true, index + n, want, start, length, size, ended)
    ensures index + n < want && !last ==> i < length - 1
    ensures index + n < want ==> n == size - position && start + index + n == (i + 1) * size
  {
    MultipleBounds(length - 1 - i, size);
    assert (length - 1 - i) * size == (length - 1) * size - i * size;
    assert (i + 1) * size == i * size + size && (length - 1) * size == length * size - size;
  }

  lemma ReadBroken(want: nat, start: nat, length: nat, size: nat, position: nat, index: nat)
    requires length > 0 && position < size && start + index == (length - 1) * size + position && index <= want
    requires index > 0 ==> index < want
    ensures ReadResult(false, index, want, start, length, size, false)
  {
  }

  lemma EmptiedCounts(fat: Fat, c: nat)
    requires c < |fat| && Val(fat, c) != EMPTY
    ensures |fat| - FreeFrom(fat[c := EMPTY], 0) == |fat| - FreeFrom(fat, 0) - 1 >= 0
  {
    assert fat == fat[c := EMPTY][c := fat[c]];
    FreeFromTaken(fat[c := EMPTY], fat, 0, c);
    FreeFromFits(fat[c := EMPTY], 0);
  }

  /** A release from the start of a chain visits all of it and succeeds. */
  lemma WholeChain(fat: Fat, cs: seq<int>, path: seq<int>)
    requires IsChain(fat, cs) && Visited(fat, cs[0], path)
    requires
      || (path != [] && IsLast(Val(fat, path[|path| - 1])))
      || (var c := Following(fat, cs[0], path); 0 <= c < |fat| && (IsError(Val(fat, c)) || c in path))
    ensures path == cs
  {
    if |path| <= |cs| {
      ChainVisited(fat, cs, path, |path|);
      assert path == path[..|path|] == cs[..|path|];
      if |path| < |cs| {
        PathStops(fat, cs, |path|);
      }
    } else {
      ChainVisited(fat, cs, path, |cs|);
    }
  }

  lemma PathStops(fat: Fat, cs: seq<int>, k: nat)
    requires IsChain(fat, cs) && k < |cs|
    ensures var c := Following(fat, cs[0], cs[..k]); c == cs[k] && !IsError(Val(fat, c)) && c !in cs[..k]
    ensures k > 0 ==> !IsLast(Val(fat, cs[..k][k - 1]))
  {
    assert k > 0 ==> Val(fat, cs[k - 1]) == cs[k];
    assert k < |cs| - 1 ==> Val(fat, cs[k]) == cs[k + 1];
  }

  lemma TakenCounts(fat: Fat, prev: uint32, t: nat, h: nat, h': nat)
    requires 2 <= t < |fat| <= BAD && prev < |fat| && (prev != 0 ==> Val(fat, prev) != EMPTY) && Val(fat, t) == EMPTY
    requires h <= t < h' < |fat| && Val(fat, h') == EMPTY
    requires forall c :: h <= c < h' && c != t ==> Val(fat, c) != EMPTY
    ensures FreeFrom(Taken(fat, prev, t), h) == FreeFrom(fat, h) - 1
    ensures FreeFrom(Taken(fat, prev, t), h') == FreeFrom(fat, h) - 1
    ensures Val(Taken(fat, prev, t), h') == EMPTY
    ensures forall c :: 0 <= c < |fat| && c != t ==> (Val(Taken(fat, prev, t), c) == EMPTY <==> Val(fat, c) == EMPTY)
  {
    var fat' := Taken(fat, prev, t);
    forall c | 0 <= c < |fat| && c != t ensures Val(fat', c) == EMPTY <==> Val(fat, c) == EMPTY {
    }
    FreeFromTaken(fat, fat', h, t);
    FreeFromLater(fat', h, h');
  }
}
