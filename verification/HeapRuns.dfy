/** Runs of the allocator: what holds after any sequence of malloc, alligned_malloc, realloc and free from heap_init. */
module HeapRuns {
  import opened Machine
  import opened HeapModel
  import opened HeapLaws
  import opened HeapMemory
  import opened KernelHeap

  /** A call; free and realloc name the start of the block they are given. */
  datatype Call =
    | Malloc(size: nat)
    | AlignedMalloc(size: nat, alignment: nat)
    | Realloc(start: int, size: nat)
    | Free(start: int)

  /** The heap after a call with the block it returns (or the one it released), or the PANIC that stops the kernel. */
  datatype Next = Next(heap: Heap, block: int) | Stopped

  /** What the callers must keep to: only blocks they own are given back. */
  ghost predicate Allowed(h: Heap, c: Call) {
    match c
    case Malloc(size) => size > 0
    case AlignedMalloc(size, alignment) => size > 0 && alignment > 0
    case Realloc(s, size) => Live(h, s) && size > 0
    case Free(s) => Live(h, s)
  }

  /** Start of the block whose payload begins at the first multiple of the alignment from the payload of s on. */
  function AlignedStart(s: int, alignment: nat): (c: int)
    requires alignment > 0 && s >= 0
    ensures (c + LEFT_EDGE_SIZE) % alignment == 0 && s <= c < s + alignment
  {
    var over := (s + LEFT_EDGE_SIZE) % alignment;
    var q := (s + LEFT_EDGE_SIZE) / alignment;
    assert s + LEFT_EDGE_SIZE == q * alignment + over;
    if over == 0 then s
    else
      assert s + LEFT_EDGE_SIZE + alignment - over == (q + 1) * alignment;
      RemainderUnique(s + LEFT_EDGE_SIZE + alignment - over, alignment, q + 1, 0);
      s + alignment - over
  }

  ghost function Step(h: Heap, c: Call): Next
    requires Inv(h) && Allowed(h, c)
  {
    match c
    case Malloc(size) =>
      ChooseComplete(h, size);
      var v := Choose(h, size);
      if v.Nothing? then Stopped else Next(Carve(h, v.start, size), v.start)
    case AlignedMalloc(size, alignment) =>
      var n := size + alignment - 1;
      ChooseComplete(h, n);
      var v := Choose(h, n);
      if !IsPowerOfTwo(alignment) || v.Nothing? then Stopped
      else
        CarveKeeps(h, v.start, n);
        Next(Align(Carve(h, v.start, n), v.start, AlignedStart(v.start, alignment)), AlignedStart(v.start, alignment))
    case Realloc(s, size) =>
      ChooseComplete(h, size);
      var v := Choose(h, size);
      if h.size[s] >= size then Next(h, s)
      else if CanExtend(h, s, size) then Next(Extend(h, s, size), s)
      else if v.Nothing? then Stopped
      else
        CarveKeeps(h, v.start, size);
        Next(Release(Carve(h, v.start, size), s), v.start)
    case Free(s) =>
      Next(Release(h, s), s)
  }

  predicate Gives(c: Call, s: int) {
    (c.Free? && c.start == s) || (c.Realloc? && c.start == s)
  }

  /** After a call the heap is well formed; the block returned is live and large enough, and blocks not given back stay
      live and lose no byte. */
  ghost predicate Kept(h: Heap, c: Call, n: Next) {
    n.Next? ==>
      && Inv(n.heap)
      && (!c.Free? ==> Live(n.heap, n.block) && n.heap.size[n.block] >= c.size)
      && (!c.Free? ==> !Live(h, n.block) || Gives(c, n.block))
      && (c.AlignedMalloc? && c.alignment > 0 ==> (n.block + LEFT_EDGE_SIZE) % c.alignment == 0)
      && (c.Realloc? && Live(h, c.start) ==> n.heap.size[n.block] >= h.size[c.start])
      && (c.Free? ==> !Live(n.heap, c.start))
      && (forall t :: Live(h, t) && !Gives(c, t) ==> Live(n.heap, t) && n.heap.size[t] >= h.size[t])
  }

  lemma MallocKeeps(h: Heap, size: nat)
    requires Inv(h) && size > 0
    ensures Kept(h, Malloc(size), Step(h, Malloc(size)))
  {
    hide Tiled, Listed, Settled, Merged, Guarded, Choose, Carve, SizeIndex;
    ChooseComplete(h, size);
    var v := Choose(h, size);
    if v.Found? {
      CarveKeeps(h, v.start, size);
      FreshBlock(h, v.start, size);
    }
  }

  lemma FreshBlock(h: Heap, s: int, size: nat)
    requires Carvable(h, s, size)
    ensures !Live(h, s) && s >= KHEAP_START
  {
  }

  lemma AlignedKeeps(h: Heap, size: nat, alignment: nat)
    requires Inv(h) && size > 0 && alignment > 0
    ensures Kept(h, AlignedMalloc(size, alignment), Step(h, AlignedMalloc(size, alignment)))
  {
    hide Tiled, Listed, Settled, Merged, Guarded, Choose, Carve, SizeIndex, Align;
    var n := size + alignment - 1;
    ChooseComplete(h, n);
    var v := Choose(h, n);
    if v.Found? {
      var s := v.start;
      CarveKeeps(h, s, n);
      FreshBlock(h, s, n);
      LeftOfAllocation(h, s, n);
      AlignKeeps(Carve(h, s, n), s, AlignedStart(s, alignment));
      AlignedFresh(h, s, n, AlignedStart(s, alignment));
    }
  }

  /** The aligned block starts where no block was live. */
  lemma AlignedFresh(h: Heap, s: int, n: nat, c: int)
    requires Carvable(h, s, n) && Inv(Carve(h, s, n)) && s in Carve(h, s, n).size
    requires s <= c < End(Carve(h, s, n).size, s)
    ensures !Live(h, c)
  {
  }

  lemma ReallocKeeps(h: Heap, s: int, size: nat)
    requires Inv(h) && Live(h, s) && size > 0
    ensures Kept(h, Realloc(s, size), Step(h, Realloc(s, size)))
  {
    hide Tiled, Listed, Settled, Merged, Guarded, Choose, Carve, SizeIndex, Extend, Release;
    ChooseComplete(h, size);
    var v := Choose(h, size);
    if h.size[s] < size {
      if CanExtend(h, s, size) {
        ExtendKeeps(h, s, size);
      } else if v.Found? {
        CarveKeeps(h, v.start, size);
        FreshBlock(h, v.start, size);
        ReleaseKeeps(Carve(h, v.start, size), s);
      }
    }
  }

  /** Every call keeps the heap. */
  lemma StepKeeps(h: Heap, c: Call)
    requires Inv(h) && Allowed(h, c)
    ensures Kept(h, c, Step(h, c))
  {
    hide Inv, Release;
    match c
    case Malloc(size) => MallocKeeps(h, size);
    case AlignedMalloc(size, alignment) => AlignedKeeps(h, size, alignment);
    case Realloc(s, size) => ReallocKeeps(h, s, size);
    case Free(s) => ReleaseKeeps(h, s);
  }

  /** The block right of s is a void that has, with s, room for `size` bytes. */
  ghost predicate RoomBehind(h: Heap, s: int, size: nat) {
    && s in h.size && End(h.size, s) in h.voids && End(h.size, s) in h.size
    && h.size[s] + SERVICE_FIELDS_SIZE + h.size[End(h.size, s)] >= size
  }

  ghost predicate Roomy(h: Heap, size: int) {
    exists v :: v in h.voids && v in h.size && h.size[v] >= size
  }

  /** A call stops the kernel exactly when nothing has the room it needs, or the alignment is no power of two. */
  lemma StopsExactly(h: Heap, c: Call)
    requires Inv(h) && Allowed(h, c)
    ensures Step(h, c).Stopped? <==>
      match c
      case Malloc(size) => !Roomy(h, size)
      case AlignedMalloc(size, alignment) => !IsPowerOfTwo(alignment) || !Roomy(h, size + alignment - 1)
      case Realloc(s, size) => h.size[s] < size && !RoomBehind(h, s, size) && !Roomy(h, size)
      case Free(_) => false
  {
    hide Listed, Merged, Choose, Carve, Extend, Release, Align;
    match c
    case Malloc(size) => ChooseComplete(h, size);
    case AlignedMalloc(size, alignment) => ChooseComplete(h, size + alignment - 1);
    case Realloc(s, size) => ChooseComplete(h, size);
    case Free(_) =>
  }

  /** realloc leaves the block where it is exactly if it has room there, and touches nothing if it is large enough. */
  lemma MovesExactly(h: Heap, s: int, size: nat)
    requires Inv(h) && Allowed(h, Realloc(s, size)) && Step(h, Realloc(s, size)).Next?
    ensures Step(h, Realloc(s, size)).block == s <==> h.size[s] >= size || RoomBehind(h, s, size)
    ensures h.size[s] >= size ==> Step(h, Realloc(s, size)).heap == h
  {
    hide Listed, Merged, Choose, Carve, Extend, Release;
    ChooseComplete(h, size);
  }

  // ---- runs ----

  /** What happens to the heap: a call, or the owner of a live block writing in it. */
  datatype Event = Called(call: Call) | Written(start: int, offset: nat, bytes: seq<byte>)

  ghost predicate EventAllowed(h: Heap, e: Event) {
    match e
    case Called(c) => Allowed(h, c)
    case Written(s, offset, bytes) => Live(h, s) && offset + |bytes| <= h.size[s]
  }

  ghost function Happens(h: Heap, e: Event): (n: Next)
    requires Inv(h) && EventAllowed(h, e)
    ensures n.Next? ==> Inv(n.heap)
  {
    match e
    case Called(c) =>
      StepKeeps(h, c);
      Step(h, c)
    case Written(s, _, _) => Next(h, s)
  }

  /** Every event is allowed when its turn comes. */
  ghost predicate RunAllowed(h: Heap, es: seq<Event>)
    requires Inv(h)
    decreases |es|
  {
    es != [] ==> EventAllowed(h, es[0]) && (Happens(h, es[0]).Next? ==> RunAllowed(Happens(h, es[0]).heap, es[1..]))
  }

  /** The heap after a run, with the block of its last event, or the PANIC that ends it early. */
  ghost function Run(h: Heap, es: seq<Event>): (n: Next)
    requires Inv(h) && RunAllowed(h, es)
    ensures n.Next? ==> Inv(n.heap)
    decreases |es|
  {
    if es == [] then Next(h, NULL)
    else if Happens(h, es[0]).Stopped? || |es| == 1 then Happens(h, es[0])
    else Run(Happens(h, es[0]).heap, es[1..])
  }

  ghost predicate FromInit(es: seq<Event>) {
    InitialKeeps();
    RunAllowed(InitialHeap(), es)
  }

  ghost function RunFromInit(es: seq<Event>): Next
    requires FromInit(es)
  {
    InitialKeeps();
    Run(InitialHeap(), es)
  }

  /** After any run live blocks lie inside the heap and apart, every byte of the heap is in a block, no two
      neighbours are void, and each void is in the list of its size. */
  lemma RunKeeps(es: seq<Event>)
    requires FromInit(es) && RunFromInit(es).Next?
    ensures
      var h := RunFromInit(es).heap;
      && Inv(h)
      && (forall s :: Live(h, s) ==> KHEAP_START <= s && End(h.size, s) <= KHEAP_END && h.size[s] > 0)
      && (forall s, t :: Live(h, s) && Live(h, t) && s < t ==> End(h.size, s) <= t)
      && (forall s :: s in h.voids ==> s in h.size && End(h.size, s) in h.data && InBucket(h, s, SizeIndex(h.size[s])))
  {
    InitialKeeps();
    var h := RunFromInit(es).heap;
    forall s | s in h.size ensures forall t :: t in h.size && s < t ==> End(h.size, s) <= t {
      NoneInside(h.size, s);
    }
  }

  predicate GivenBack(es: seq<Event>, s: int) {
    exists k :: 0 <= k < |es| && es[k].Called? && Gives(es[k].call, s)
  }

  lemma NotGivenBack(es: seq<Event>, s: int)
    requires es != [] && !GivenBack(es, s)
    ensures !GivenBack(es[1..], s) && (es[0].Called? ==> !Gives(es[0].call, s))
  {
    forall k | 0 <= k < |es[1..]| ensures !(es[1..][k].Called? && Gives(es[1..][k].call, s)) {
      assert es[1..][k] == es[k + 1];
    }
  }

  /** A block stays live, and loses none of its size, for as long as it is not given back. */
  lemma {:induction false} LiveUntilGiven(h: Heap, es: seq<Event>, s: int)
    requires Inv(h) && RunAllowed(h, es) && Live(h, s) && !GivenBack(es, s) && Run(h, es).Next?
    ensures Live(Run(h, es).heap, s) && Run(h, es).heap.size[s] >= h.size[s]
    decreases |es|
  {
    hide Step, Inv;
    if es != [] {
      NotGivenBack(es, s);
      if es[0].Called? {
        StepKeeps(h, es[0].call);
      }
      if |es| > 1 {
        LiveUntilGiven(Happens(h, es[0]).heap, es[1..], s);
      }
    }
  }

  // ---- the bytes of the owners ----

  /** What the owners have written: by block and offset, the last byte put there. */
  type Known = map<int, map<int, byte>>

  function Put(held: map<int, byte>, offset: nat, bytes: seq<byte>): (r: map<int, byte>)
    ensures forall o :: o in r <==> o in held || offset <= o < offset + |bytes|
    ensures forall o :: o in r ==> r[o] == if offset <= o < offset + |bytes| then bytes[o - offset] else held[o]
    decreases |bytes|
  {
    if bytes == [] then held else Put(held[offset := bytes[0]], offset + 1, bytes[1..])
  }

  /** A block from malloc holds nothing yet, realloc takes along what its block holds, and free forgets it. */
  function Learned(known: Known, e: Event, block: int): Known {
    match e
    case Called(Free(s)) => known - {s}
    case Called(Realloc(s, _)) => (known - {s})[block := if s in known then known[s] else map[]]
    case Called(_) => known[block := map[]]
    case Written(s, offset, bytes) => known[s := Put(if s in known then known[s] else map[], offset, bytes)]
  }

  ghost function Knows(h: Heap, known: Known, es: seq<Event>): Known
    requires Inv(h) && RunAllowed(h, es) && Run(h, es).Next?
    decreases |es|
  {
    if es == [] then known
    else
      var n := Happens(h, es[0]);
      if |es| == 1 then Learned(known, es[0], n.block) else Knows(n.heap, Learned(known, es[0], n.block), es[1..])
  }

  ghost function KnowsFromInit(es: seq<Event>): Known
    requires FromInit(es) && RunFromInit(es).Next?
  {
    InitialKeeps();
    Knows(InitialHeap(), map[], es)
  }

  /** Byte `offset` of the payload of block s. */
  function PayloadByte(m: seq<byte>, s: int, offset: int): byte
    requires |m| == TWO_32
  {
    var a := s + LEFT_EDGE_SIZE + offset;
    if 0 <= a < TWO_32 then m[a] else 0
  }

  /** Every byte that an owner has written is found where it was written, or where realloc has taken its block. */
  ghost predicate Remembers(m: seq<byte>, h: Heap, known: Known) {
    && |m| == TWO_32
    && (forall s :: s in known ==> Live(h, s))
    && (forall s, o :: s in known && o in known[s] ==> 0 <= o < h.size[s] && PayloadByte(m, s, o) == known[s][o])
  }

  /** A call changes no byte of a block that is not given back, and realloc takes all bytes along. */
  ghost predicate BytesKept(m: seq<byte>, h: Heap, c: Call, m': seq<byte>, n: Next) {
    && |m| == |m'| == TWO_32
    && (forall t, o :: Live(h, t) && !Gives(c, t) && 0 <= o < h.size[t] ==>
      PayloadByte(m', t, o) == PayloadByte(m, t, o))
    && (n.Next? && c.Realloc? && Live(h, c.start) ==>
      forall o :: 0 <= o < h.size[c.start] ==> PayloadByte(m', n.block, o) == PayloadByte(m, c.start, o))
  }

  /** Where an event leaves what block s holds: realloc may take it elsewhere. */
  ghost function Carried(h: Heap, e: Event, s: int): int
    requires Inv(h) && EventAllowed(h, e) && Happens(h, e).Next?
  {
    if e.Called? && e.call.Realloc? && e.call.start == s then Happens(h, e).block else s
  }

  ghost function Home(h: Heap, es: seq<Event>, s: int): int
    requires Inv(h) && RunAllowed(h, es) && Run(h, es).Next?
    decreases |es|
  {
    if es == [] then s else Home(Happens(h, es[0]).heap, es[1..], Carried(h, es[0], s))
  }

  /** Over a run the block, wherever it is, is not freed and its byte o not written again. */
  ghost predicate LeftAlone(h: Heap, es: seq<Event>, s: int, o: int)
    requires Inv(h) && RunAllowed(h, es) && Run(h, es).Next?
    decreases |es|
  {
    es != [] ==>
      && es[0] != Called(Free(s))
      && !(es[0].Written? && es[0].start == s && es[0].offset <= o < es[0].offset + |es[0].bytes|)
      && LeftAlone(Happens(h, es[0]).heap, es[1..], Carried(h, es[0], s), o)
  }

  /** What has been written last in a block is what is known of it, wherever realloc has taken it since. */
  lemma {:induction false} LastWritten(h: Heap, known: Known, es: seq<Event>, s: int, o: int)
    requires Inv(h) && RunAllowed(h, es) && Run(h, es).Next? && LeftAlone(h, es, s, o)
    requires Live(h, s) && s in known && o in known[s]
    ensures
      var after, home := Knows(h, known, es), Home(h, es, s);
      home in after && o in after[home] && after[home][o] == known[s][o]
    decreases |es|
  {
    hide Step, Inv;
    if es != [] {
      var n := Happens(h, es[0]);
      if es[0].Called? {
        StepKeeps(h, es[0].call);
      }
      LastWritten(n.heap, Learned(known, es[0], n.block), es[1..], Carried(h, es[0], s), o);
    }
  }

  /** The bytes just written are known. */
  lemma WrittenKnown(known: Known, s: int, offset: nat, bytes: seq<byte>)
    ensures
      var after := Learned(known, Written(s, offset, bytes), s);
      && s in after && forall k {:trigger bytes[k]} :: 0 <= k < |bytes| ==>
        offset + k in after[s] && after[s][offset + k] == bytes[k]
  {
  }

  /** When nothing is live any more, the free memory is one void between the guards (or none, if the first guard has
      absorbed everything as alignment gaps). */
  lemma NothingLive(h: Heap)
    requires Inv(h) && forall s :: !Live(h, s)
    ensures var v := End(h.size, KHEAP_START);
      if v == LAST_BLOCK then h.size.Keys == {KHEAP_START, LAST_BLOCK} && h.voids == {}
      else h.size.Keys == {KHEAP_START, v, LAST_BLOCK} && h.voids == {v} && End(h.size, v) == LAST_BLOCK
  {
    hide Listed;
    var b, v := h.size, End(h.size, KHEAP_START);
    NoneInside(b, KHEAP_START);
    if v != LAST_BLOCK {
      assert v in b && !Live(h, v);
      assert v in h.voids;
      var e := End(b, v);
      assert e !in h.voids && e in b && !Live(h, e);
      assert e == LAST_BLOCK;
      NoneInside(b, v);
    }
    NoneInside(b, LAST_BLOCK);
    assert End(b, LAST_BLOCK) == KHEAP_END;
    forall t | t in b ensures t == KHEAP_START || t == v || t == LAST_BLOCK {
    }
  }

  // ---- the allocator makes these steps ----

  /** What a caller can pass in 32 bits; the size that alligned_malloc asks malloc for must not wrap around. */
  predicate Passable(c: Call) {
    match c
    case Malloc(size) => size < TWO_32
    case AlignedMalloc(size, alignment) => size + alignment <= TWO_32
    case Realloc(s, size) => size < TWO_32
    case Free(s) => true
  }

  lemma AlignedUnique(s: int, alignment: nat, c: int)
    requires alignment > 0 && s >= 0 && s <= c < s + alignment && (c + LEFT_EDGE_SIZE) % alignment == 0
    ensures c == AlignedStart(s, alignment)
  {
    hide AlignedStart;
    var d := AlignedStart(s, alignment);
    var p, q := (c + LEFT_EDGE_SIZE) / alignment, (d + LEFT_EDGE_SIZE) / alignment;
    assert (p - q) * alignment == c - d;
    MultipleBounds(p - q, alignment);
  }

  lemma MemoryLength(a: Allocator)
    requires a.Valid()
    ensures |a.mem| == TWO_32
  {
  }

  lemma LiveReturnable(a: Allocator, s: int)
    requires a.Valid() && Live(a.h, s)
    ensures 0 <= s < TWO_32 - LEFT_EDGE_SIZE && a.Returnable(s + LEFT_EDGE_SIZE)
  {
    hide Load;
  }

  ghost predicate Stepped(m: seq<byte>, h: Heap, c: Call, m': seq<byte>, n: Next)
    requires Inv(h) && Allowed(h, c)
  {
    Step(h, c) == n && BytesKept(m, h, c, m', n)
  }

  lemma MallocSteps(a: Allocator, mem0: seq<byte>, h0: Heap, size: nat, r: Outcome)
    requires a.Valid() && Inv(h0) && size > 0 && |mem0| == TWO_32 && a.MallocResult(mem0, h0, size, r)
    ensures Stepped(mem0, h0, Malloc(size), a.mem, if r.Panicked? then Stopped else Next(a.h, r.ptr - LEFT_EDGE_SIZE))
  {
    hide Tiled, Listed, Settled, Merged, Guarded, Choose, Carve;
  }

  lemma AlignedSteps(a: Allocator, mem0: seq<byte>, h0: Heap, size: nat, alignment: nat, r: Outcome)
    requires a.Valid() && Inv(h0) && size > 0 && alignment > 0 && |mem0| == TWO_32
    requires a.AlignedResult(mem0, h0, size, alignment, r)
    ensures Stepped(mem0, h0, AlignedMalloc(size, alignment), a.mem,
      if r.Panicked? then Stopped else Next(a.h, r.ptr - LEFT_EDGE_SIZE))
  {
    hide Tiled, Settled, Merged, Guarded, Choose, Carve, Align;
    if r.Ok? {
      var s := Choose(h0, size + alignment - 1).start;
      FreshBlock(h0, s, size + alignment - 1);
      AlignedUnique(s, alignment, r.ptr - LEFT_EDGE_SIZE);
    }
  }

  lemma ReallocSteps(a: Allocator, mem0: seq<byte>, h0: Heap, s: int, size: nat, r: Outcome)
    requires a.Valid() && Inv(h0) && size > 0 && |mem0| == TWO_32 && a.ReallocResult(mem0, h0, s, size, r)
    ensures Stepped(mem0, h0, Realloc(s, size), a.mem,
      if r.Panicked? then Stopped else Next(a.h, r.ptr - LEFT_EDGE_SIZE))
  {
    hide Tiled, Settled, Merged, Guarded, Choose, Carve, Release, Extend;
    InMemory(h0, s);
    if h0.size[s] < size && !CanExtend(h0, s, size) && r.Ok? {
      InMemory(h0, Choose(h0, size).start);
    }
  }

  lemma InMemory(h: Heap, s: int)
    requires Inv(h) && s in h.size
    ensures KHEAP_START <= s && End(h.size, s) <= KHEAP_END
  {
  }

  lemma FreeSteps(a: Allocator, mem0: seq<byte>, h0: Heap, s: int, r: Outcome)
    requires a.Valid() && Inv(h0) && Live(h0, s) && |mem0| == TWO_32 && a.FreeResult(mem0, h0, s + LEFT_EDGE_SIZE, r)
    ensures r.Ok? && Stepped(mem0, h0, Free(s), a.mem, Next(a.h, s))
  {
    hide Listed, Settled, Merged, Release;
  }

  /** Any allowed call of the allocator is a step, in which no byte of a block not given back changes. */
  method Perform(a: Allocator, c: Call) returns (r: Outcome)
    requires a.Valid() && Allowed(a.h, c) && Passable(c)
    modifies a`mem, a`h, a.root
    ensures a.Valid()
    ensures
      var n := if r.Panicked? then Stopped else Next(a.h, if c.Free? then c.start else r.ptr - LEFT_EDGE_SIZE);
      Step(old(a.h), c) == n && BytesKept(old(a.mem), old(a.h), c, a.mem, n)
  {
    hide Inv, Step, Allocator.MallocResult, Allocator.AlignedResult, Allocator.ReallocResult, Allocator.FreeResult,
      Allocator.Consistent, BytesKept;
    ghost var h0, mem0 := a.h, a.mem;
    MemoryLength(a);
    match c {
      case Malloc(size) =>
        r := a.Malloc(size);
        MallocSteps(a, mem0, h0, size, r);
      case AlignedMalloc(size, alignment) =>
        r := a.AlignedMalloc(size, alignment);
        AlignedSteps(a, mem0, h0, size, alignment, r);
      case Realloc(s, size) =>
        LiveReturnable(a, s);
        r := a.Realloc(s + LEFT_EDGE_SIZE, size);
        ReallocSteps(a, mem0, h0, s, size, r);
      case Free(s) =>
        LiveReturnable(a, s);
        r := a.Free(s + LEFT_EDGE_SIZE);
        FreeSteps(a, mem0, h0, s, r);
    }
  }

  /** What is known stays true over a call ... */
  lemma CallRemembered(m: seq<byte>, h: Heap, c: Call, m': seq<byte>, n: Next, known: Known)
    requires Remembers(m, h, known) && n.Next? && Kept(h, c, n) && BytesKept(m, h, c, m', n) && Allowed(h, c)
    ensures Remembers(m', n.heap, Learned(known, Called(c), n.block))
  {
  }

  /** ... and over a write by the owner of a block. */
  lemma WriteRemembered(m: seq<byte>, h: Heap, s: int, offset: nat, bytes: seq<byte>, m': seq<byte>, known: Known)
    requires Remembers(m, h, known) && Inv(h) && EventAllowed(h, Written(s, offset, bytes))
    requires
      var at := s + LEFT_EDGE_SIZE + offset;
      0 <= at <= at + |bytes| <= TWO_32 && m' == m[..at] + bytes + m[at + |bytes|..]
    ensures Remembers(m', h, Learned(known, Written(s, offset, bytes), s))
  {
    hide Listed, Settled, Merged, Guarded, PayloadByte;
    forall t, o | Live(h, t) && 0 <= o < h.size[t]
      ensures PayloadByte(m', t, o) ==
        if t == s && offset <= o < offset + |bytes| then bytes[o - offset] else PayloadByte(m, t, o)
    {
      ByteWritten(m, h, s, offset, bytes, m', t, o);
    }
  }

  lemma ByteWritten(m: seq<byte>, h: Heap, s: int, offset: nat, bytes: seq<byte>, m': seq<byte>, t: int, o: int)
    requires |m| == TWO_32 && Inv(h) && Live(h, s) && offset + |bytes| <= h.size[s] && Live(h, t) && 0 <= o < h.size[t]
    requires
      var at := s + LEFT_EDGE_SIZE + offset;
      0 <= at <= at + |bytes| <= TWO_32 && m' == m[..at] + bytes + m[at + |bytes|..]
    ensures |m'| == TWO_32
    ensures PayloadByte(m', t, o) ==
      if t == s && offset <= o < offset + |bytes| then bytes[o - offset] else PayloadByte(m, t, o)
  {
    hide Listed, Settled, Merged, Guarded;
    NoneInside(h.size, s);
    NoneInside(h.size, t);
  }

  /** The owner of a block writes in its payload. */
  method WriteBytes(a: Allocator, s: int, offset: nat, bytes: seq<byte>)
    requires a.Valid() && Live(a.h, s) && offset + |bytes| <= a.h.size[s]
    modifies a`mem
    ensures
      var at := s + LEFT_EDGE_SIZE + offset;
      && 0 <= at <= at + |bytes| <= TWO_32
      && |old(a.mem)| == |a.mem| == TWO_32 && a.mem == old(a.mem)[..at] + bytes + old(a.mem)[at + |bytes|..]
    ensures a.Valid()
  {
    var at := s + LEFT_EDGE_SIZE + offset;
    a.mem := a.mem[..at] + bytes + a.mem[at + |bytes|..];
    PayloadWritten(old(a.mem), a.mem, a.root[..], a.h, s);
  }

  /** The allocator and its owners go through any run on raw memory, and no byte that an owner wrote is lost: each is
      found at its offset in its block, wherever realloc has moved it. The run ends early only with the PANIC of the
      machine. */
  method PerformAll(a: Allocator, es: seq<Event>, ghost known: Known) returns (ok: bool)
    requires a.Valid() && RunAllowed(a.h, es) && Remembers(a.mem, a.h, known)
    requires forall k :: 0 <= k < |es| && es[k].Called? ==> Passable(es[k].call)
    modifies a`mem, a`h, a.root
    ensures a.Valid() && (ok <==> Run(old(a.h), es).Next?)
    ensures ok ==> a.h == Run(old(a.h), es).heap && Remembers(a.mem, a.h, Knows(old(a.h), known, es))
  {
    hide Step, Inv, Remembers, BytesKept, Allocator.Consistent;
    ghost var now := known;
    for i := 0 to |es|
      invariant a.Valid() && RunAllowed(a.h, es[i..]) && Remembers(a.mem, a.h, now)
      invariant Run(old(a.h), es).Next? <==> Run(a.h, es[i..]).Next?
      invariant Run(a.h, es[i..]).Next? ==> Run(old(a.h), es).heap == Run(a.h, es[i..]).heap
      invariant Run(a.h, es[i..]).Next? ==> Knows(old(a.h), known, es) == Knows(a.h, now, es[i..])
    {
      assert es[i..][1..] == es[i + 1..];
      ghost var h0, mem0 := a.h, a.mem;
      match es[i] {
        case Called(c) =>
          StepKeeps(h0, c);
          var r := Perform(a, c);
          if r.Panicked? {
            return false;
          }
          ghost var block := if c.Free? then c.start else r.ptr - LEFT_EDGE_SIZE;
          CallRemembered(mem0, h0, c, a.mem, Next(a.h, block), now);
          now := Learned(now, es[i], block);
        case Written(s, offset, bytes) =>
          WriteBytes(a, s, offset, bytes);
          WriteRemembered(mem0, h0, s, offset, bytes, a.mem, now);
          now := Learned(now, es[i], s);
      }
    }
    return true;
  }

  /** heap_init and any run after it. */
  method Boot(a: Allocator, es: seq<Event>) returns (ok: bool)
    requires |a.mem| == TWO_32 && a.root.Length == HEAP_VOID_BUCKET_COUNT && FromInit(es)
    requires forall k :: 0 <= k < |es| && es[k].Called? ==> Passable(es[k].call)
    modifies a`mem, a`h, a.root
    ensures a.Valid() && (ok <==> RunFromInit(es).Next?)
    ensures ok ==> a.h == RunFromInit(es).heap && Remembers(a.mem, a.h, KnowsFromInit(es))
  {
    hide Inv, RunAllowed, Run, Knows, InitialHeap;
    InitialKeeps();
    a.HeapInit();
    ok := PerformAll(a, es, map[]);
  }
}
