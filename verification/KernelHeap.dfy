/** The kernel allocator: malloc, free, realloc and alligned_malloc working in place on boundary tags and bucket
    lists. */
module KernelHeap {
  import opened Machine
  import opened HeapModel
  import opened HeapLaws
  import opened HeapMemory

  /** A pointer, or the PANIC that stops the kernel. */
  datatype Outcome = Ok(ptr: uint32) | Panicked

  class Allocator {
    var mem: seq<byte>               // the address space
    const root: array<uint32>        // heap_void_bucket_root
    ghost var h: Heap

    /** Memory and roots show the ghost state, possibly in the middle of an operation. */
    ghost predicate Consistent()
      reads this, root
    {
      root.Length == HEAP_VOID_BUCKET_COUNT && Represents(mem, root[..], h)
    }

    ghost predicate Valid()
      reads this, root
    {
      Consistent() && Inv(h)
    }

    // ---- blocks ----

    method CreateDataBlock(s: uint32, n: uint32)
      requires |mem| == TWO_32 && s + SERVICE_FIELDS_SIZE + n <= TWO_32
      modifies this`mem
      ensures mem == WriteTags(old(mem), s, n, HEAP_DATA_BLOCK_MAGIC)
    {
      mem := Store(mem, s, HEAP_DATA_BLOCK_MAGIC);
      mem := Store(mem, s + 4, n);
      var foot := s + LEFT_EDGE_SIZE + n;
      mem := Store(mem, foot, n);
      mem := Store(mem, foot + 4, HEAP_DATA_BLOCK_MAGIC);
    }

    method CreateVoidBlock(s: uint32, n: uint32)
      requires |mem| == TWO_32 && s + SERVICE_FIELDS_SIZE + n <= TWO_32
      modifies this`mem
      ensures mem == WriteVoid(old(mem), s, n)
    {
      mem := Store(mem, s, HEAP_VOID_BLOCK_MAGIC);
      mem := Store(mem, s + 4, n);
      mem := Store(mem, s + 8, NULL);
      mem := Store(mem, s + 12, NULL);
      var foot := s + LEFT_EDGE_SIZE + n;
      mem := Store(mem, foot, n);
      mem := Store(mem, foot + 4, HEAP_VOID_BLOCK_MAGIC);
    }

    /** Erases the header signature and the first word of the footer. */
    method BlockErase(s: uint32)
      requires |mem| == TWO_32 && s + SERVICE_FIELDS_SIZE <= TWO_32
      requires s + SERVICE_FIELDS_SIZE + Load(mem, s + 4) <= TWO_32
      modifies this`mem
      ensures mem == EraseTags(old(mem), s, Load(old(mem), s + 4))
    {
      mem := Store(mem, s, 0);
      mem := Store(mem, s + Load(mem, s + 4) + LEFT_EDGE_SIZE, 0);
    }

    // ---- buckets ----

    method BucketErase(i: nat, s: uint32)
      requires Consistent() && s in h.voids && HasBucket(h, s) && i == SizeIndex(h.size[s])
      modifies this`mem, this`h, root
      ensures Consistent() && h == Unlink(old(h), s)
      ensures SamePayloads(old(mem), mem, h.size, h.data) && Load(mem, s + 4) == h.size[s]
    {
      hide Load, Store, Within, Chained, Disjoint, Listed, Tagged, Linked;
      ghost var k: int := FindNode(mem, root[..], h, s);
      ghost var l := h.lists[i];
      var right, left := Load(mem, s + 12), Load(mem, s + 8);
      LinksOfNode(mem, root[..], h, s, k, Nth(l, k - 1), Nth(l, k + 1));
      UnlinkRepresents(mem, root[..], h, s, k, left, right);
      if root[i] == s {
        root[i] := Load(mem, root[i] + 12);
      }
      if left != NULL {
        mem := Store(mem, left + 12, right);
      }
      if right != NULL {
        mem := Store(mem, right + 8, left);
      }
      assert mem == UnlinkWords(old(mem), left, right);
      BlockErase(s);
      h := Unlink(h, s);
      assert root[..] == old(root[..])[i := if k == 0 then right else old(root[..])[i]];
    }

    method BucketAddBegin(i: nat, s: uint32)
      requires Consistent() && s !in h.data && s !in h.voids && HasBucket(h, s) && i == SizeIndex(h.size[s])
      requires Tags(mem, s, h.size[s], HEAP_VOID_BLOCK_MAGIC) && Load(mem, s + 8) == NULL
      modifies this`mem, this`h, root
      ensures Consistent() && h == Link(old(h), s)
      ensures SamePayloads(old(mem), mem, h.size, h.data)
    {
      hide Load, Store, Within, Chained, Disjoint, Linked, Tagged;
      PushRepresents(mem, root[..], h, s);
      mem := Store(mem, s + 12, root[i]);
      root[i] := s;
      if Load(mem, s + 12) != NULL {
        mem := Store(mem, Load(mem, s + 12) + 8, s);
      }
      h := Link(h, s);
      assert root[..] == old(root[..])[i := s];
    }

    // ---- merging ----

    /** get_void_block_size_index. */
    static function GetVoidBlockSizeIndex(size: uint32): (i: nat)
      ensures i == SizeIndex(size)
    {
      if size <= 1 then 0 else 32 - Clz(size - 1)
    }

    /** create_void_block_default over untagged blocks that the tiling b cuts or joins, then into the bucket. */
    method AddVoid(s: uint32, n: uint32, ghost b: Tiling)
      requires Consistent() && Tiled(b) && s in b && b[s] == n && s !in h.data && s !in h.voids
      requires forall t :: t in h.data || t in h.voids ==> t in b && b[t] == h.size[t]
      modifies this`mem, this`h, root
      ensures Consistent() && HasBucket(old(h).(size := b), s) && h == Link(old(h).(size := b), s)
      ensures SamePayloads(old(mem), mem, old(h).size, old(h).data)
    {
      hide Load, Store, Within, Chained, Disjoint, Listed, Linked, Tagged, WriteVoid;
      VoidWritten(mem, root[..], h, b, s);
      CreateVoidBlock(s, n);
      h := h.(size := b);
      ghost var m1 := mem;
      BucketAddBegin(GetVoidBlockSizeIndex(Load(mem, s + 4)), s);
      SamePayloadsTrans(old(mem), m1, mem, old(h).size, b, old(h).data);
    }

    /** First half of heap_void_block_try_merge: voids beside s leave their buckets, and [newStart, newEnd) spans
        them. */
    method EraseNeighbours(s: uint32) returns (newStart: uint32, newEnd: uint32, found: bool)
      requires Consistent() && Mergeable(h, s) && h.data + h.voids == h.size.Keys
      modifies this`mem, this`h, root
      ensures Consistent() && h == UnlinkIfVoid(UnlinkIfVoid(old(h), Left(old(h).size, s)), End(old(h).size, s))
      ensures newStart == MergeStart(old(h), s) && newEnd == MergeEnd(old(h), s)
      ensures found == (newStart != s || newEnd != End(old(h).size, s))
      ensures SamePayloads(old(mem), mem, old(h).size, h.data)
    {
      hide Load, Store, Within, Chained, Disjoint, Listed, Linked, Tagged;
      ghost var h0, l, r := h, Left(h.size, s), End(h.size, s);
      BlockTags(mem, root[..], h, s);
      BlockTags(mem, root[..], h, l);
      BlockTags(mem, root[..], h, r);
      newStart, newEnd, found := s, s + SERVICE_FIELDS_SIZE + Load(mem, s + 4), false;
      if Load(mem, s - 4) == HEAP_VOID_BLOCK_MAGIC {
        found := true;
        var leftStart := s - SERVICE_FIELDS_SIZE - Load(mem, s - 8);
        assert leftStart == l;
        BucketErase(GetVoidBlockSizeIndex(Load(mem, leftStart + 4)), leftStart);
        newStart := leftStart;
      }
      assert h == UnlinkIfVoid(h0, l);
      BlockTags(mem, root[..], h, s);
      BlockTags(mem, root[..], h, r);
      var rightStart := s + SERVICE_FIELDS_SIZE + Load(mem, s + 4);
      if Load(mem, rightStart) == HEAP_VOID_BLOCK_MAGIC {
        found := true;
        BucketErase(GetVoidBlockSizeIndex(Load(mem, rightStart + 4)), rightStart);
        newEnd := rightStart + SERVICE_FIELDS_SIZE + Load(mem, rightStart + 4);
      }
    }

    /** Joins the linked void s with the voids beside it. */
    method TryMerge(s: uint32)
      requires Consistent() && Mergeable(h, s) && h.data + h.voids == h.size.Keys
      modifies this`mem, this`h, root
      ensures Consistent() && h == HeapModel.TryMerge(old(h), s)
      ensures SamePayloads(old(mem), mem, old(h).size, h.data)
    {
      hide Load, Store, Within, Chained, Disjoint, Listed, Linked, Tagged;
      ghost var h0 := h;
      var newStart, newEnd, found := EraseNeighbours(s);
      if found {
        BlockTags(mem, root[..], h, s);
        BucketErase(GetVoidBlockSizeIndex(Load(mem, s + 4)), s);
        assert h == Detach(h0, s);
        JoinKeys(h0.size, h0.voids, Left(h0.size, s), s, newStart, newEnd);
        JoinTiled(h0.size, newStart, newEnd);
        AddVoid(newStart, newEnd - newStart - SERVICE_FIELDS_SIZE, Join(h0.size, newStart, newEnd));
      }
    }

    // ---- the interface ----

    /** Memory of any content, and the bucket table. */
    constructor (initial: seq<byte>)
      requires |initial| == TWO_32
      ensures mem == initial && root.Length == HEAP_VOID_BUCKET_COUNT && fresh(root)
    {
      mem := initial;
      root := new uint32[HEAP_VOID_BUCKET_COUNT];
      h := BlankHeap();
    }

    method ClearRoots()
      requires root.Length == HEAP_VOID_BUCKET_COUNT
      modifies root
      ensures forall j :: 0 <= j < root.Length ==> root[j] == NULL
    {
      for i := 0 to HEAP_VOID_BUCKET_COUNT
        invariant forall j :: 0 <= j < i ==> root[j] == NULL
      {
        root[i] := NULL;
      }
    }

    /** heap_init over memory of any content: two empty guard blocks and one void between them. */
    method HeapInit()
      requires |mem| == TWO_32 && root.Length == HEAP_VOID_BUCKET_COUNT
      modifies this`mem, this`h, root
      ensures Valid() && h == InitialHeap()
    {
      hide Load, Store, WriteTags, Represents, Within, Chained, Disjoint, Listed, SizeIndex, Inv;
      var endBlock := KHEAP_END - SERVICE_FIELDS_SIZE;
      CreateDataBlock(KHEAP_START, 0);
      CreateDataBlock(endBlock, 0);
      ClearRoots();
      GuardsRepresents(old(mem), root[..]);
      h := GuardedHeap();
      BlankTiled();
      var voidStart := KHEAP_START + SERVICE_FIELDS_SIZE + Load(mem, KHEAP_START + 4);
      AddVoid(voidStart, endBlock - voidStart - SERVICE_FIELDS_SIZE, h.size);
      InitialKeeps();
    }

    ghost predicate Unchanged(mem0: seq<byte>, h0: Heap)
      reads this
    {
      h == h0 && mem == mem0
    }

    /** The void s has been carved, and no payload has changed. */
    ghost predicate Carved(mem0: seq<byte>, h0: Heap, s: int, size: nat)
      reads this
    {
      && Carvable(h0, s, size) && h == Carve(h0, s, size)
      && |mem0| == |mem| == TWO_32 && SamePayloads(mem0, mem, h0.size, h0.data)
    }

    /** try_malloc_from_bucket on the list of bucket i from its root on: the first void that fits is carved. */
    method TryMallocFromBucket(n0: uint32, i: nat, size: uint32) returns (ptr: uint32)
      requires Valid() && i < HEAP_VOID_BUCKET_COUNT && n0 == root[i] && size > 0
      modifies this`mem, this`h, root
      ensures Valid()
      ensures
        var f := FirstFit(old(h).size, old(h).lists[i], size);
        if f.Nothing? then ptr == NULL && Unchanged(old(mem), old(h))
        else ptr == f.start + LEFT_EDGE_SIZE && ptr != NULL && Carved(old(mem), old(h), f.start, size)
    {
      hide Load, Store, Within, Chained, Disjoint, Tagged, Merged, Guarded, Settled, Carve;
      ghost var l, k := h.lists[i], 0;
      var n := n0;
      while n != NULL
        invariant k <= |l| && n == Nth(l, k) && h == old(h) && mem == old(mem) && root[..] == old(root[..])
        invariant FirstFit(h.size, l, size) == FirstFit(h.size, l[k..], size)
        decreases |l| - k
      {
        ListNode(mem, root[..], h, i, k);
        BlockTags(mem, root[..], h, n);
        assert l[k..][0] == n && l[k..][1..] == l[k + 1..];
        if Load(mem, n + 4) >= size {
          assert FirstFit(h.size, l, size) == Found(n);
          CarveFrom(n, i, size);
          return n + LEFT_EDGE_SIZE;
        }
        n := Load(mem, n + 12);
        k := k + 1;
      }
      if k < |l| {
        ListNode(mem, root[..], h, i, k);
      }
      return NULL;
    }

    method CarveFrom(n: uint32, i: nat, size: uint32)
      requires Valid() && Carvable(h, n, size) && i == SizeIndex(h.size[n])
      modifies this`mem, this`h, root
      ensures Valid() && h == Carve(old(h), n, size)
      ensures SamePayloads(old(mem), mem, old(h).size, old(h).data)
    {
      hide Represents, Carve, SizeIndex, Listed;
      CarveKeeps(h, n, size);
      CarveTags(n, i, size);
    }

    method CarveTags(n: uint32, i: nat, size: uint32)
      requires Valid() && Carvable(h, n, size) && i == SizeIndex(h.size[n])
      modifies this`mem, this`h, root
      ensures Consistent() && |mem| == TWO_32 && h == Carve(old(h), n, size)
      ensures SamePayloads(old(mem), mem, old(h).size, old(h).data)
    {
      hide Load, Store, Within, Chained, Disjoint, Listed, Linked, Tagged, Merged, Guarded;
      ghost var h0 := h;
      BlockTags(mem, root[..], h, n);
      var left := Load(mem, n + 4) - size - SERVICE_FIELDS_SIZE;
      if left <= 0 {
        var whole := Load(mem, n + 4);
        BucketErase(i, n);
        AddData(n, whole, h.size);
      } else {
        BucketErase(i, n);
        var c := n + SERVICE_FIELDS_SIZE + size;
        SplitTiled(h0.size, n, c);
        AddData(n, size, Split(h.size, n, c));
        AddVoid(n + SERVICE_FIELDS_SIZE + Load(mem, n + 4), left, h.size);
      }
    }

    /** create_data_block over untagged blocks that the tiling b cuts or joins. */
    method AddData(s: uint32, n: uint32, ghost b: Tiling)
      requires Consistent() && Tiled(b) && s in b && b[s] == n && s !in h.data && s !in h.voids
      requires forall t :: t in h.data || t in h.voids ==> t in b && b[t] == h.size[t]
      modifies this`mem, this`h
      ensures Consistent() && h == SetData(old(h).(size := b), s) && Load(mem, s + 4) == n
      ensures SamePayloads(old(mem), mem, old(h).size, old(h).data)
      ensures forall a :: 0 <= a < TWO_32 && !(s <= a < s + 8) ==>
        !(s + LEFT_EDGE_SIZE + n <= a < s + SERVICE_FIELDS_SIZE + n) ==> mem[a] == old(mem)[a]
    {
      hide Load, Store, Within, Chained, Disjoint, Listed, Linked, Tagged, WriteTags;
      DataWritten(mem, root[..], h, b, s);
      CreateDataBlock(s, n);
      h := SetData(h.(size := b), s);
    }

    /** malloc panics exactly when no void is large enough (see ChooseComplete), and otherwise carves the chosen one. */
    ghost predicate MallocResult(mem0: seq<byte>, h0: Heap, size: nat, r: Outcome)
      reads this
    {
      && Inv(h0)
      && if size == 0 then r == Ok(NULL) && Unchanged(mem0, h0)
      else if Choose(h0, size).Nothing? then r == Panicked && Unchanged(mem0, h0)
      else Carved(mem0, h0, Choose(h0, size).start, size) && r.Ok? && r.ptr == Choose(h0, size).start + LEFT_EDGE_SIZE
    }

    method Malloc(size: uint32) returns (r: Outcome)
      requires Valid()
      modifies this`mem, this`h, root
      ensures Valid() && MallocResult(old(mem), old(h), size, r)
    {
      hide Tiled, Settled, Merged, Guarded, Tagged, Linked, FirstFit, Carve;
      if size == 0 {
        return Ok(NULL);
      }
      var index := GetVoidBlockSizeIndex(size);
      if index >= HEAP_VOID_BUCKET_COUNT {
        return Panicked;
      }
      var i := index;
      while i < HEAP_VOID_BUCKET_COUNT
        invariant index <= i <= HEAP_VOID_BUCKET_COUNT && Valid() && Unchanged(old(mem), old(h))
        invariant SearchUp(h, size, index) == SearchUp(h, size, i)
      {
        var ptr := TryMallocFromBucket(root[i], i, size);
        if ptr != NULL {
          return Ok(ptr);
        }
        i := i + 1;
      }
      if index > 0 {
        var ptr := TryMallocFromBucket(root[index - 1], index - 1, size);
        if ptr != NULL {
          return Ok(ptr);
        }
      }
      return Panicked;
    }

    /** What the source demands of a pointer it gets back: where the data signature stands, a live block starts. */
    ghost predicate Returnable(ptr: int)
      reads this
    {
      && |mem| == TWO_32 && (ptr == NULL || LEFT_EDGE_SIZE <= ptr < TWO_32)
      && (ptr != NULL && Load(mem, ptr - LEFT_EDGE_SIZE) == HEAP_DATA_BLOCK_MAGIC ==> Live(h, ptr - LEFT_EDGE_SIZE))
    }

    /** The live block s has been released, and the payloads of the others have not changed. */
    ghost predicate Freed(mem0: seq<byte>, h0: Heap, s: int)
      reads this
    {
      && Inv(h0) && Live(h0, s) && h == Release(h0, s)
      && |mem0| == |mem| == TWO_32 && SamePayloads(mem0, mem, h0.size, h0.data - {s})
    }

    /** free of NULL does nothing, free of anything without the data signature panics. */
    ghost predicate FreeResult(mem0: seq<byte>, h0: Heap, ptr: int, r: Outcome)
      reads this
    {
      if ptr == NULL then r == Ok(NULL) && Unchanged(mem0, h0)
      else if !Live(h0, ptr - LEFT_EDGE_SIZE) then r == Panicked && Unchanged(mem0, h0)
      else r == Ok(NULL) && Freed(mem0, h0, ptr - LEFT_EDGE_SIZE)
    }

    method Free(ptr: uint32) returns (r: Outcome)
      requires Valid() && Returnable(ptr)
      modifies this`mem, this`h, root
      ensures Valid() && FreeResult(old(mem), old(h), ptr, r)
    {
      if ptr == NULL {
        return Ok(NULL);
      }
      var start := ptr - LEFT_EDGE_SIZE;
      if Load(mem, start) != HEAP_DATA_BLOCK_MAGIC {
        assert !Live(h, start);
        return Panicked;
      }
      FreeBlock(start);
      return Ok(NULL);
    }

    method FreeBlock(start: uint32)
      requires Valid() && Live(h, start)
      modifies this`mem, this`h, root
      ensures Valid() && Freed(old(mem), old(h), start)
    {
      hide Load, Store, Within, Chained, Disjoint, Listed, Linked, Tagged, EraseTags, Merged;
      ghost var h0 := h;
      ReleaseMergeable(h0, start);
      ReleaseKeeps(h0, start);
      BlockTags(mem, root[..], h, start);
      EraseRepresents(mem, root[..], h, start);
      BlockErase(start);
      h := h.(data := h.data - {start});
      AddVoid(start, Load(mem, start + 4), h.size);
      TryMerge(start);
    }

    /** memcpy between separate ranges, a word at a time and then the odd bytes. */
    method Memcpy(dst: uint32, src: uint32, size: uint32)
      requires |mem| == TWO_32 && dst + size <= TWO_32 && src + size <= TWO_32
      requires (dst + size <= src || src + size <= dst)
      modifies this`mem
      ensures |mem| == TWO_32
      ensures forall a :: dst <= a < dst + size ==> mem[a] == old(mem)[a - dst + src]
      ensures forall a :: 0 <= a < TWO_32 && !(dst <= a < dst + size) ==> mem[a] == old(mem)[a]
    {
      hide Load, Store;
      var i := 0;
      while i + 4 <= size
        invariant 0 <= i <= size && |mem| == TWO_32
        invariant forall a :: dst <= a < dst + i ==> mem[a] == old(mem)[a - dst + src]
        invariant forall a :: 0 <= a < TWO_32 && !(dst <= a < dst + i) ==> mem[a] == old(mem)[a]
      {
        WordCopied(mem, dst + i, src + i);
        mem := Store(mem, dst + i, Load(mem, src + i));
        i := i + 4;
      }
      while i < size
        invariant 0 <= i <= size && |mem| == TWO_32
        invariant forall a :: dst <= a < dst + i ==> mem[a] == old(mem)[a - dst + src]
        invariant forall a :: 0 <= a < TWO_32 && !(dst <= a < dst + i) ==> mem[a] == old(mem)[a]
      {
        mem := mem[dst + i := mem[src + i]];
        i := i + 1;
      }
    }

    static lemma WordCopied(m: seq<byte>, d: nat, s: nat)
      requires |m| == TWO_32 && d + 4 <= TWO_32 && s + 4 <= TWO_32
      ensures
        var m' := Store(m, d, Load(m, s));
        && |m'| == TWO_32 && (forall a :: d <= a < d + 4 ==> m'[a] == m[a - d + s])
        && (forall a :: 0 <= a < TWO_32 && !(d <= a < d + 4) ==> m'[a] == m[a])
    {
      hide Load, Store;
      var m' := Store(m, d, Load(m, s));
      StoreLoadCopies(m, d, s);
      forall a | d <= a < d + 4 ensures m'[a] == m[a - d + s] {
        assert m'[d..d + 4][a - d] == m'[a] && m[s..s + 4][a - d] == m[a - d + s];
      }
    }

    /** The in-place half of realloc. */
    method ExtendBlock(s: uint32, size: uint32)
      requires Valid() && CanExtend(h, s, size)
      modifies this`mem, this`h, root
      ensures Valid() && |mem| == TWO_32 && h == Extend(old(h), s, size)
      ensures SamePayloads(old(mem), mem, old(h).size, old(h).data)
    {
      hide Represents, Extend;
      ExtendKeeps(h, s, size);
      ExtendTags(s, size);
    }

    method ExtendTags(s: uint32, size: uint32)
      requires Valid() && CanExtend(h, s, size)
      modifies this`mem, this`h, root
      ensures Consistent() && |mem| == TWO_32 && h == Extend(old(h), s, size)
      ensures SamePayloads(old(mem), mem, old(h).size, old(h).data)
    {
      hide Load, Store, Within, Chained, Disjoint, Listed, Linked, Tagged, Join, Merged, Guarded, SizeIndex;
      ghost var h0 := h;
      BlockTags(mem, root[..], h, s);
      BlockTags(mem, root[..], h, End(h.size, s));
      var next := s + SERVICE_FIELDS_SIZE + Load(mem, s + 4);
      AbsorbKeys(h0.size, s);
      var nextSize, ownSize := Load(mem, next + 4), Load(mem, s + 4);
      ghost var b := Join(h0.size, s, End(h0.size, next));
      var left := nextSize + ownSize - size;
      BucketErase(GetVoidBlockSizeIndex(nextSize), next);
      ForgetData(mem, root[..], h, s);
      h := h.(data := h.data - {s});
      if left <= 0 {
        AddData(s, nextSize + ownSize + SERVICE_FIELDS_SIZE, b);
      } else {
        SplitTiled(b, s, s + SERVICE_FIELDS_SIZE + size);
        AddData(s, size, Split(b, s, s + SERVICE_FIELDS_SIZE + size));
        AddVoid(s + SERVICE_FIELDS_SIZE + Load(mem, s + 4), left, h.size);
      }
    }

    /** The moving half of realloc: a new block, the old bytes in it, the old block released. */
    ghost predicate Moved(mem0: seq<byte>, h0: Heap, s: int, c: int, size: nat)
      reads this
    {
      && Carvable(h0, c, size) && Inv(Carve(h0, c, size)) && Live(Carve(h0, c, size), s)
      && h == Release(Carve(h0, c, size), s)
      && |mem0| == |mem| == TWO_32 && SamePayloads(mem0, mem, h0.size, h0.data - {s})
      && (forall a :: c + LEFT_EDGE_SIZE <= a < c + LEFT_EDGE_SIZE + h0.size[s] ==> mem[a] == mem0[a - c + s])
    }

    /** realloc of a live block: in place if it is large enough or can grow, otherwise by moving. */
    ghost predicate ReallocResult(mem0: seq<byte>, h0: Heap, s: int, size: nat, r: Outcome)
      reads this
    {
      && Inv(h0) && Live(h0, s)
      && if h0.size[s] >= size then r == Ok(s + LEFT_EDGE_SIZE) && Unchanged(mem0, h0)
      else if CanExtend(h0, s, size) then
        && r == Ok(s + LEFT_EDGE_SIZE) && h == Extend(h0, s, size)
        && |mem0| == |mem| == TWO_32 && SamePayloads(mem0, mem, h0.size, h0.data)
      else if Choose(h0, size).Nothing? then r == Panicked && Unchanged(mem0, h0)
      else Moved(mem0, h0, s, Choose(h0, size).start, size) && r == Ok(Choose(h0, size).start + LEFT_EDGE_SIZE)
    }

    method Realloc(ptr: uint32, size: uint32) returns (r: Outcome)
      requires Valid() && Returnable(ptr)
      modifies this`mem, this`h, root
      ensures Valid()
      ensures ptr == NULL ==> MallocResult(old(mem), old(h), size, r)
      ensures ptr != NULL && size == 0 ==> FreeResult(old(mem), old(h), ptr, r)
      ensures ptr != NULL && size > 0 && !Live(old(h), ptr - LEFT_EDGE_SIZE) ==>
        r == Panicked && Unchanged(old(mem), old(h))
      ensures ptr != NULL && size > 0 && Live(old(h), ptr - LEFT_EDGE_SIZE) ==>
        ReallocResult(old(mem), old(h), ptr - LEFT_EDGE_SIZE, size, r)
    {
      hide Load, Inv, Represents, Extend, Choose;
      if ptr == NULL {
        r := Malloc(size);
        return;
      }
      if size == 0 {
        r := Free(ptr);
        return;
      }
      var s := ptr - LEFT_EDGE_SIZE;
      if Load(mem, s) != HEAP_DATA_BLOCK_MAGIC {
        LiveTag(s);
        return Panicked;
      }
      ReallocTags(s);
      if Load(mem, s + 4) >= size {
        return Ok(ptr);
      }
      var oldSize := Load(mem, s + 4);
      var next := s + SERVICE_FIELDS_SIZE + oldSize;
      if Load(mem, next) == HEAP_VOID_BLOCK_MAGIC && Load(mem, next + 4) + oldSize + SERVICE_FIELDS_SIZE >= size {
        ExtendBlock(s, size);
        return Ok(ptr);
      }
      r := Move(s, size);
    }

    lemma LiveTag(s: int)
      requires Valid() && 0 <= s <= TWO_32 - 4 && Load(mem, s) != HEAP_DATA_BLOCK_MAGIC
      ensures !Live(h, s)
    {
      hide Load;
    }

    /** The words around a live block that realloc looks at. */
    lemma ReallocTags(s: int)
      requires Valid() && Live(h, s)
      ensures KHEAP_START <= s && s + SERVICE_FIELDS_SIZE <= End(h.size, s) <= KHEAP_END - SERVICE_FIELDS_SIZE
      ensures Load(mem, s + 4) == h.size[s] && End(h.size, s) in h.size
      ensures Load(mem, End(h.size, s)) == Magic(h, End(h.size, s))
      ensures Load(mem, End(h.size, s) + 4) == h.size[End(h.size, s)]
      ensures End(h.size, s) in h.data <==> End(h.size, s) !in h.voids
    {
      hide Load, Listed;
      ReleaseMergeable(h, s);
      BlockTags(mem, root[..], h, s);
      BlockTags(mem, root[..], h, End(h.size, s));
    }

    method Move(s: uint32, size: uint32) returns (r: Outcome)
      requires Valid() && Live(h, s) && h.size[s] < size
      modifies this`mem, this`h, root
      ensures Valid()
      ensures Choose(old(h), size).Nothing? ==> r == Panicked && Unchanged(old(mem), old(h))
      ensures Choose(old(h), size).Found? ==>
        && Moved(old(mem), old(h), s, Choose(old(h), size).start, size)
        && r == Ok(Choose(old(h), size).start + LEFT_EDGE_SIZE)
    {
      hide Load, Store, Within, Chained, Disjoint, Listed, Linked, Tagged, Merged, Release, Carve, Choose, SizeIndex,
        SamePayloads;
      ghost var h0, mem0 := h, mem;
      BlockTags(mem, root[..], h, s);
      var oldSize := Load(mem, s + 4);
      r := Malloc(size);
      if r.Panicked? {
        return;
      }
      ghost var c := Choose(h0, size).start;
      CarveKeeps(h0, c, size);
      ghost var h1, mem1 := h, mem;
      BlockTags(mem, root[..], h, s);
      BlockTags(mem, root[..], h, c);
      NoneInside(h.size, s);
      NoneInside(h.size, c);
      Memcpy(r.ptr, s + LEFT_EDGE_SIZE, oldSize);
      PayloadWritten(mem1, mem, root[..], h, c);
      ghost var mem2 := mem;
      FreeBlock(s);
      MovedPayloads(mem0, mem1, mem2, mem, h0, h1, s, c);
    }

    /** The rest of alligned_malloc once malloc has returned the block s: its start moves up to c. False is the PANIC
        on a void to the left, which the invariant rules out. */
    method AlignBlock(s: uint32, c: uint32) returns (ok: bool)
      requires Valid() && Live(h, s) && Left(h.size, s) !in h.voids && s <= c < End(h.size, s) - SERVICE_FIELDS_SIZE
      modifies this`mem, this`h, root
      ensures ok && Valid() && h == Align(old(h), s, c)
      ensures |mem| == TWO_32 && SamePayloads(old(mem), mem, old(h).size, old(h).data - {s})
    {
      hide Listed, Represents, Align;
      AlignKeeps(h, s, c);
      if c - s <= SERVICE_FIELDS_SIZE {
        ok := AlignFoldTags(s, c);
      } else {
        ok := AlignSplitTags(s, c);
      }
    }

    method AlignSplitTags(s: uint32, c: uint32) returns (ok: bool)
      requires Valid() && Live(h, s) && Left(h.size, s) !in h.voids
      requires s + SERVICE_FIELDS_SIZE < c < End(h.size, s) - SERVICE_FIELDS_SIZE
      modifies this`mem, this`h, root
      ensures ok && Consistent() && h == Align(old(h), s, c)
      ensures |mem| == TWO_32 && SamePayloads(old(mem), mem, old(h).size, old(h).data - {s})
    {
      hide Load, Store, Within, Chained, Disjoint, Listed, Linked, Tagged, Merged, SizeIndex, EraseTags;
      ghost var h0, p := h, Left(h.size, s);
      BlockTags(mem, root[..], h, s);
      SplitTiled(h.size, s, c);
      EraseRepresents(mem, root[..], h, s);
      BlockErase(s);
      h := h.(data := h.data - {s});
      var blockEnd := s + SERVICE_FIELDS_SIZE + Load(mem, s + 4);
      AddData(c, blockEnd - c - SERVICE_FIELDS_SIZE, Split(h0.size, s, c));
      BlockTags(mem, root[..], h, p);
      if Load(mem, s - 4) != HEAP_DATA_BLOCK_MAGIC {
        return false;
      }
      AddVoid(s, c - s - SERVICE_FIELDS_SIZE, h.size);
      return true;
    }

    method AlignFoldTags(s: uint32, c: uint32) returns (ok: bool)
      requires Valid() && Live(h, s) && Left(h.size, s) !in h.voids
      requires s <= c < End(h.size, s) - SERVICE_FIELDS_SIZE && c - s <= SERVICE_FIELDS_SIZE
      modifies this`mem, this`h, root
      ensures ok && Consistent() && h == Align(old(h), s, c)
      ensures |mem| == TWO_32 && SamePayloads(old(mem), mem, old(h).size, old(h).data - {s})
    {
      hide Load, Store, Within, Chained, Disjoint, Listed, Linked, Tagged, Merged, SizeIndex, Fold;
      ghost var h0, p := h, Left(h.size, s);
      FoldTiled(h.size, p, s, c);
      PlaceData(s, c, p);
      if Load(mem, s - 4) != HEAP_DATA_BLOCK_MAGIC {
        return false;
      }
      GrowBlock(s - SERVICE_FIELDS_SIZE - Load(mem, s - 8), c - s);
      assert h.data == h0.data - {s} + {c};
      return true;
    }

    /** The fresh allocation s is erased and a data block written from c on; its left neighbour p counts as untagged
        from here, though its tags still stand. */
    method PlaceData(s: uint32, c: uint32, ghost p: int)
      requires Valid() && Live(h, s) && p == Left(h.size, s) && p !in h.voids
      requires s <= c < End(h.size, s) - SERVICE_FIELDS_SIZE && c - s <= SERVICE_FIELDS_SIZE
      modifies this`mem, this`h
      ensures Consistent() && h == old(h).(data := old(h).data - {s} - {p} + {c}, size := Fold(old(h).size, p, s, c))
      ensures |mem| == TWO_32 && 0 <= p <= s - SERVICE_FIELDS_SIZE && SERVICE_FIELDS_SIZE <= s
      ensures Load(mem, s - 4) == HEAP_DATA_BLOCK_MAGIC && Load(mem, s - 8) == Load(mem, p + 4) == old(h).size[p]
      ensures SamePayloads(old(mem), mem, old(h).size, old(h).data - {s})
    {
      hide Load, Store, Within, Chained, Disjoint, Listed, Linked, Tagged, Merged, SizeIndex, Fold;
      ghost var h0, mem0 := h, mem;
      BlockTags(mem, root[..], h, s);
      BlockTags(mem, root[..], h, p);
      FoldTiled(h.size, p, s, c);
      EraseRepresents(mem, root[..], h, s);
      BlockErase(s);
      ForgetData(mem, root[..], h.(data := h.data - {s}), p);
      h := h.(data := h.data - {s} - {p});
      var blockEnd := s + SERVICE_FIELDS_SIZE + Load(mem, s + 4);
      AddData(c, blockEnd - c - SERVICE_FIELDS_SIZE, Fold(h0.size, p, s, c));
      SizesKept(mem0, mem, s, p);
    }

    static lemma SizesKept(m: seq<byte>, m': seq<byte>, s: int, p: int)
      requires |m| == |m'| == TWO_32 && 0 <= p && p + SERVICE_FIELDS_SIZE <= s < TWO_32
      requires forall a :: p + 4 <= a < p + 8 || s - 8 <= a < s ==> m'[a] == m[a]
      ensures Load(m', s - 4) == Load(m, s - 4) && Load(m', s - 8) == Load(m, s - 8)
      ensures Load(m', p + 4) == Load(m, p + 4)
    {
      hide Load;
      SameWord(m, m', s - 4);
      SameWord(m, m', s - 8);
      SameWord(m, m', p + 4);
    }

    /** The block s, whose header still shows its old size, is rewritten with `gap` more bytes. */
    method GrowBlock(s: uint32, gap: uint32)
      requires Consistent() && s in h.size && s !in h.data && s !in h.voids
      requires s + SERVICE_FIELDS_SIZE <= TWO_32 && h.size[s] == Load(mem, s + 4) + gap
      modifies this`mem, this`h, root
      ensures Consistent() && h == SetData(old(h), s) && |mem| == TWO_32
      ensures SamePayloads(old(mem), mem, h.size, old(h).data)
      ensures forall a :: s + LEFT_EDGE_SIZE <= a < s + LEFT_EDGE_SIZE + h.size[s] - gap ==> mem[a] == old(mem)[a]
    {
      hide Load, Store, Chained, Disjoint, Listed, Linked;
      ghost var mem0 := mem;
      var oldSize := Load(mem, s + 4);
      BlockErase(s);
      RawRewritten(mem0, mem, root[..], h, s);
      AddData(s, oldSize + gap, h.size);
    }

    /** The data block at c takes the upper part of the allocation s, `size` bytes of payload or more. */
    ghost predicate AlignedFrom(h0: Heap, s: int, c: int, size: int)
      reads this
    {
      && Inv(h0) && Live(h0, s) && s <= c < End(h0.size, s) - SERVICE_FIELDS_SIZE
      && h == Align(h0, s, c) && c in h.size && Live(h, c) && h.size[c] >= size
    }

    /** A block aligned by `alignment`, cut out of the void that malloc would take for size + alignment - 1 bytes. */
    ghost predicate AlignedResult(mem0: seq<byte>, h0: Heap, size: int, alignment: int, r: Outcome)
      requires size > 0 && alignment > 0
      reads this
    {
      var n := size + alignment - 1;
      Inv(h0) && if !IsPowerOfTwo(alignment) || Choose(h0, n).Nothing? then r == Panicked && Unchanged(mem0, h0)
      else
        var s := Choose(h0, n).start;
        && Carvable(h0, s, n)
        && r.Ok? && r.ptr % alignment == 0 && s + LEFT_EDGE_SIZE <= r.ptr < s + LEFT_EDGE_SIZE + alignment
        && AlignedFrom(Carve(h0, s, n), s, r.ptr - LEFT_EDGE_SIZE, size)
        && |mem0| == |mem| == TWO_32 && SamePayloads(mem0, mem, h0.size, h0.data)
    }

    /** The size that reaches malloc must not wrap around 2^32 (see WrappedRequest). */
    method AlignedMalloc(size: uint32, alignment: uint32) returns (r: Outcome)
      requires Valid() && size + alignment <= TWO_32
      modifies this`mem, this`h, root
      ensures Valid()
      ensures size == 0 || alignment == 0 ==> r == Ok(NULL) && Unchanged(old(mem), old(h))
      ensures size > 0 && alignment > 0 ==> AlignedResult(old(mem), old(h), size, alignment, r)
    {
      hide Load, Tagged, Linked, Listed, Merged, Chained, Disjoint, Settled, Guarded, Carve, Align, Choose, And,
        SamePayloads;
      if size == 0 || alignment == 0 {
        return Ok(NULL);
      }
      PowerOfTwoTest(alignment);
      if And(alignment, alignment - 1) != 0 {
        return Panicked;
      }
      ghost var h0, mem0, n := h, mem, size + alignment - 1;
      r := Malloc(size + alignment - 1);
      if r.Panicked? {
        return;
      }
      ghost var h1, mem1 := h, mem;
      r := AlignAllocation(r.ptr, alignment, h0, n);
      AlignedPayloads(mem0, mem1, mem, h0, h1, Choose(h0, n).start, n);
    }

    /** From the pointer that malloc returned on. */
    method AlignAllocation(ptr: uint32, alignment: uint32, ghost h0: Heap, ghost n: nat) returns (r: Outcome)
      requires Valid() && 0 < alignment <= n && IsPowerOfTwo(alignment)
      requires ptr >= LEFT_EDGE_SIZE && Carvable(h0, ptr - LEFT_EDGE_SIZE, n) && h == Carve(h0, ptr - LEFT_EDGE_SIZE, n)
      modifies this`mem, this`h, root
      ensures Valid() && r.Ok? && r.ptr % alignment == 0 && ptr <= r.ptr < ptr + alignment
      ensures AlignedFrom(old(h), ptr - LEFT_EDGE_SIZE, r.ptr - LEFT_EDGE_SIZE, n - alignment + 1)
      ensures |old(mem)| == |mem| == TWO_32
      ensures SamePayloads(old(mem), mem, old(h).size, old(h).data - {ptr - LEFT_EDGE_SIZE})
    {
      hide Load, Within, Chained, Disjoint, Listed, Linked, Tagged, Merged, Carve, Align, And, SamePayloads;
      ghost var h1 := h;
      var prevEnd := ptr - LEFT_EDGE_SIZE;
      LeftOfAllocation(h0, prevEnd, n);
      CarveKeeps(h0, prevEnd, n);
      BlockTags(mem, root[..], h, prevEnd);
      RoundUp(ptr, alignment);
      var aligned := And(ptr + alignment - 1, Not32(alignment - 1));
      AlignKeeps(h1, prevEnd, aligned - LEFT_EDGE_SIZE);
      var ok := AlignBlock(prevEnd, aligned - LEFT_EDGE_SIZE);
      if !ok {
        return Panicked;
      }
      return Ok(aligned);
    }
  }

  lemma AlignedPayloads(m0: seq<byte>, m1: seq<byte>, m2: seq<byte>, h0: Heap, h1: Heap, s: int, n: nat)
    requires Carvable(h0, s, n) && h1 == Carve(h0, s, n) && Inv(h1)
    requires |m0| == |m1| == |m2| == TWO_32 && SamePayloads(m0, m1, h0.size, h0.data)
    requires SamePayloads(m1, m2, h1.size, h1.data - {s})
    ensures SamePayloads(m0, m2, h0.size, h0.data)
  {
    hide Listed, Carve;
    CarveKeeps(h0, s, n);
    if h0.size[s] - n > SERVICE_FIELDS_SIZE {
      SplitMissing(h0.size, s, s + SERVICE_FIELDS_SIZE + n);
    }
  }

  lemma SplitMissing(b: Tiling, s: int, c: int)
    requires Tiled(b) && s in b && s + SERVICE_FIELDS_SIZE <= c <= End(b, s) - SERVICE_FIELDS_SIZE
    ensures c !in b
  {
    SplitTiled(b, s, c);
  }

  /** `(p + a - 1) & ~(a - 1)` is the least multiple of the power of two a that is not below p. */
  lemma RoundUp(p: nat, a: uint32)
    requires 0 < a && IsPowerOfTwo(a) && p + a - 1 < TWO_32
    ensures
      var r := And(p + a - 1, Not32(a - 1));
      p <= r < p + a && r % a == 0
  {
    hide And, IsPowerOfTwo, Pow2, LowBits;
    var k := ExponentBelow33(a);
    AndHighMask(p + a - 1, 32, k);
    LowBitsIsRemainder(p + a - 1, k);
    RoundDown(p + a - 1, a);
  }

  lemma ExponentBelow33(a: uint32) returns (k: nat)
    requires 0 < a && IsPowerOfTwo(a)
    ensures k <= 32 && a == Pow2(k) && Not32(a - 1) == Pow2(32) - Pow2(k) && Pow2(32) == TWO_32
  {
    k :| a == Pow2(k);
    Pow2Values();
    if k > 32 {
      Pow2Monotone(32, k);
    }
  }

  lemma RoundDown(x: nat, a: nat)
    requires a > 0
    ensures x - a < x - x % a <= x && (x - x % a) % a == 0
  {
    assert x == x / a * a + x % a;
    RemainderUnique(x - x % a, a, x / a, 0);
  }

  /** A request whose padded size wraps around 2^32 asks for more than the heap has: nothing could own that many
      bytes. */
  lemma WrappedRequest(h: Heap, size: uint32, alignment: uint32)
    requires Inv(h) && IsPowerOfTwo(alignment) && size + alignment > TWO_32
    ensures forall s :: s in h.size ==> h.size[s] < size
  {
    var k: nat :| alignment == Pow2(k);
    Pow2Values();
    if k >= 32 {
      Pow2Monotone(32, k);
    }
    Pow2Monotone(k, 31);
    Pow2Sum(26, 5);
  }
}
