/**
 * The segregated-fit kernel heap seen as a tiling of the heap range and thirty bucket lists.
 * Every operation of the allocator is a function on that state; HeapMemory.dfy shows that the code working on
 * raw bytes computes these functions, and the lemmas here say what they keep.
 */
module HeapModel {
  import opened Machine

  const KHEAP_START: int := 0xC040_0000
  const KHEAP_END: int := 0xC400_0000
  const LEFT_EDGE_SIZE: nat := 16
  const RIGHT_EDGE_SIZE: nat := 8
  const SERVICE_FIELDS_SIZE: nat := 24
  const HEAP_VOID_BUCKET_COUNT: nat := 30
  const LAST_BLOCK: int := KHEAP_END - SERVICE_FIELDS_SIZE

  /** Payload size of every block by its start address. */
  type Tiling = map<int, nat>

  /** `data` and `voids` are the starts of the blocks whose tags say so; a block in neither is one whose tags an
      operation has erased and not rewritten yet. `lists` holds each bucket list from its root on. */
  datatype Heap = Heap(size: Tiling, data: set<int>, voids: set<int>, lists: seq<seq<int>>)

  function End(b: Tiling, s: int): int
    requires s in b
  {
    s + SERVICE_FIELDS_SIZE + b[s]
  }

  /** Least i with size <= 2^i. */
  function SizeIndex(size: nat): nat {
    if size <= 1 then 0 else BitLength(size - 1)
  }

  // ---- invariants ----

  ghost predicate Within(b: Tiling) {
    forall s :: s in b ==> KHEAP_START <= s && s + SERVICE_FIELDS_SIZE + b[s] <= KHEAP_END
  }

  ghost predicate Chained(b: Tiling) {
    forall s {:trigger End(b, s)} :: s in b ==> End(b, s) == KHEAP_END || End(b, s) in b
  }

  ghost predicate Disjoint(b: Tiling) {
    forall s, t :: s in b && t in b && s < t ==> s + SERVICE_FIELDS_SIZE + b[s] <= t
  }

  /** The blocks cover [KHEAP_START, KHEAP_END) without gap or overlap. */
  ghost predicate Tiled(b: Tiling) {
    KHEAP_START in b && Within(b) && Chained(b) && Disjoint(b)
  }

  ghost predicate Distinct(l: seq<int>) {
    forall i, j :: 0 <= i < j < |l| ==> l[i] != l[j]
  }

  ghost predicate InBucket(h: Heap, s: int, i: nat) {
    s in h.voids && s in h.size && SizeIndex(h.size[s]) == i
  }

  /** Bucket i lists exactly the void blocks of size index i, each once. */
  ghost predicate Listed(h: Heap) {
    && |h.lists| == HEAP_VOID_BUCKET_COUNT
    && (forall i :: 0 <= i < HEAP_VOID_BUCKET_COUNT ==> Distinct(h.lists[i]))
    && (forall i, k :: 0 <= i < HEAP_VOID_BUCKET_COUNT && 0 <= k < |h.lists[i]| ==> InBucket(h, h.lists[i][k], i))
    && (forall i, s :: 0 <= i < HEAP_VOID_BUCKET_COUNT && InBucket(h, s, i) ==> s in h.lists[i])
  }

  /** Every block is data or void, and none but the two guards is empty. */
  ghost predicate Settled(h: Heap) {
    && h.data !! h.voids && h.data + h.voids == h.size.Keys
    && (forall s :: s in h.size && s != KHEAP_START && s != LAST_BLOCK ==> h.size[s] > 0)
  }

  /** No two neighbouring blocks are both void. */
  ghost predicate Merged(b: Tiling, voids: set<int>) {
    forall s {:trigger End(b, s)} :: s in b && s in voids ==> End(b, s) !in voids
  }

  ghost predicate Guarded(h: Heap) {
    && KHEAP_START in h.data && LAST_BLOCK in h.data
    && LAST_BLOCK in h.size && h.size[LAST_BLOCK] == 0
  }

  ghost predicate Inv(h: Heap) {
    Tiled(h.size) && Listed(h) && Settled(h) && Merged(h.size, h.voids) && Guarded(h)
  }

  /** A data block that the allocator handed out: every one but the two guards. */
  ghost predicate Live(h: Heap, s: int) {
    s in h.data && s in h.size && s != KHEAP_START && s != LAST_BLOCK
  }

  // ---- operations ----

  function Without(l: seq<int>, s: int): (r: seq<int>)
  {
    if l == [] then [] else if l[0] == s then l[1..] else [l[0]] + Without(l[1..], s)
  }

  ghost predicate HasBucket(h: Heap, s: int) {
    s in h.size && SizeIndex(h.size[s]) < |h.lists|
  }

  /** heap_void_bucket_erase: out of its list, tags erased. */
  ghost function Unlink(h: Heap, s: int): Heap
    requires HasBucket(h, s)
  {
    var i := SizeIndex(h.size[s]);
    h.(voids := h.voids - {s}, lists := h.lists[i := Without(h.lists[i], s)])
  }

  /** heap_void_bucket_add_begin: a new void becomes the root of its bucket. */
  ghost function Link(h: Heap, s: int): Heap
    requires HasBucket(h, s)
  {
    var i := SizeIndex(h.size[s]);
    h.(voids := h.voids + {s}, lists := h.lists[i := [s] + h.lists[i]])
  }

  function SetData(h: Heap, s: int): Heap {
    h.(data := h.data + {s})
  }

  /** Block s is cut in two at address c. */
  function Split(b: Tiling, s: int, c: int): Tiling
    requires s in b && s + SERVICE_FIELDS_SIZE <= c <= End(b, s) - SERVICE_FIELDS_SIZE
  {
    b[s := c - s - SERVICE_FIELDS_SIZE][c := End(b, s) - c - SERVICE_FIELDS_SIZE]
  }

  /** The blocks from lo up to hi become one. */
  function Join(b: Tiling, lo: int, hi: int): Tiling
    requires lo + SERVICE_FIELDS_SIZE <= hi
  {
    (map t | t in b && !(lo < t < hi) :: b[t])[lo := hi - lo - SERVICE_FIELDS_SIZE]
  }

  /** The start of block s moves up to c, and its left neighbour p takes the gap. */
  function Fold(b: Tiling, p: int, s: int, c: int): Tiling
    requires s in b && p in b && End(b, p) == s && s <= c <= End(b, s) - SERVICE_FIELDS_SIZE
  {
    Split(Join(b, p, End(b, s)), p, c)
  }

  datatype Search = Nothing | Found(start: int)

  function FirstFit(b: Tiling, l: seq<int>, size: nat): Search
    requires forall k :: 0 <= k < |l| ==> l[k] in b
  {
    if l == [] then Nothing
    else if b[l[0]] >= size then Found(l[0])
    else FirstFit(b, l[1..], size)
  }

  ghost function SearchUp(h: Heap, size: nat, i: nat): Search
    requires Listed(h) && i <= HEAP_VOID_BUCKET_COUNT
    decreases HEAP_VOID_BUCKET_COUNT - i
  {
    if i == HEAP_VOID_BUCKET_COUNT then Nothing
    else if FirstFit(h.size, h.lists[i], size).Found? then FirstFit(h.size, h.lists[i], size)
    else SearchUp(h, size, i + 1)
  }

  /** The void that malloc takes, if it finds one. */
  ghost function Choose(h: Heap, size: nat): Search
    requires Listed(h)
  {
    var i := SizeIndex(size);
    if i >= HEAP_VOID_BUCKET_COUNT then Nothing
    else
      var up := SearchUp(h, size, i);
      if up.Found? || i == 0 then up else FirstFit(h.size, h.lists[i - 1], size)
  }

  ghost predicate Carvable(h: Heap, s: int, size: nat) {
    Inv(h) && s in h.voids && HasBucket(h, s) && 0 < size <= h.size[s]
  }

  /** try_malloc_from_bucket once the void s is chosen: data at its beginning, the rest void again if it has room. */
  ghost function Carve(h: Heap, s: int, size: nat): (r: Heap)
    requires Carvable(h, s, size)
    ensures r.data == h.data + {s}
    ensures
      var c := s + SERVICE_FIELDS_SIZE + size;
      if h.size[s] - size <= SERVICE_FIELDS_SIZE then r.size == h.size && r.voids == h.voids - {s}
      else r.size == Split(h.size, s, c) && r.voids == h.voids - {s} + {c}
  {
    var h1 := SetData(Unlink(h, s), s);
    if h.size[s] - size <= SERVICE_FIELDS_SIZE then h1
    else
      SizeIndexMonotone(h.size[s] - size - SERVICE_FIELDS_SIZE, h.size[s]);
      var c := s + SERVICE_FIELDS_SIZE + size;
      Link(h1.(size := Split(h.size, s, c)), c)
  }

  /** A linked void with a block on either side. */
  ghost predicate Mergeable(h: Heap, s: int) {
    && Tiled(h.size) && Listed(h) && Guarded(h) && s in h.voids && s in h.size && End(h.size, s) in h.size
    && s != KHEAP_START
  }

  /** Where the void around s begins once it is merged to the left. */
  ghost function MergeStart(h: Heap, s: int): int
    requires Tiled(h.size) && s in h.size && s != KHEAP_START
  {
    if Left(h.size, s) in h.voids then Left(h.size, s) else s
  }

  /** Where the void around s ends once it is merged to the right. */
  ghost function MergeEnd(h: Heap, s: int): int
    requires s in h.size && End(h.size, s) in h.size
  {
    if End(h.size, s) in h.voids then End(h.size, End(h.size, s)) else End(h.size, s)
  }

  ghost function UnlinkIfVoid(h: Heap, s: int): (r: Heap)
    requires Tiled(h.size) && s in h.size && |h.lists| == HEAP_VOID_BUCKET_COUNT
    ensures r.size == h.size && r.data == h.data && r.voids == h.voids - {s} && |r.lists| == HEAP_VOID_BUCKET_COUNT
  {
    SizeIndexInRange(h.size[s]);
    if s in h.voids then Unlink(h, s) else h
  }

  /** The voids among s and its neighbours leave their buckets. */
  ghost function Detach(h: Heap, s: int): (r: Heap)
    requires Mergeable(h, s)
    ensures r.size == h.size && r.data == h.data && |r.lists| == HEAP_VOID_BUCKET_COUNT
    ensures r.voids == h.voids - {Left(h.size, s), s, End(h.size, s)}
  {
    UnlinkIfVoid(UnlinkIfVoid(UnlinkIfVoid(h, Left(h.size, s)), End(h.size, s)), s)
  }

  /** heap_void_block_try_merge on the linked void s. */
  ghost function TryMerge(h: Heap, s: int): Heap
    requires Mergeable(h, s)
  {
    var lo, hi := MergeStart(h, s), MergeEnd(h, s);
    if lo == s && hi == End(h.size, s) then h
    else
      var b := Join(h.size, lo, hi);
      SizeIndexInRange(b[lo]);
      Link(Detach(h, s).(size := b), lo)
  }

  /** free of the live block s. */
  ghost function Release(h: Heap, s: int): Heap
    requires Inv(h) && Live(h, s)
  {
    ReleaseMergeable(h, s);
    TryMerge(Link(h.(data := h.data - {s}), s), s)
  }

  ghost predicate CanExtend(h: Heap, s: int, size: nat) {
    && Live(h, s) && h.size[s] < size && End(h.size, s) in h.size && End(h.size, s) in h.voids
    && h.size[End(h.size, s)] + h.size[s] + SERVICE_FIELDS_SIZE >= size
  }

  /** realloc growing the live block s into the void right of it. */
  ghost function Extend(h: Heap, s: int, size: nat): Heap
    requires Inv(h) && CanExtend(h, s, size)
  {
    var r := End(h.size, s);
    var joined := Join(h.size, s, End(h.size, r));
    SizeIndexInRange(h.size[r]);
    var h1 := Unlink(h, r).(size := joined);
    if h.size[r] + h.size[s] <= size then h1
    else
      var c := s + SERVICE_FIELDS_SIZE + size;
      SizeIndexInRange(End(joined, s) - c - SERVICE_FIELDS_SIZE);
      Link(h1.(size := Split(joined, s, c)), c)
  }

  /** alligned_malloc moving the start of the fresh allocation s up to c: the gap becomes a void if a non-trivial one
      fits, otherwise the block on the left absorbs it. */
  ghost function Align(h: Heap, s: int, c: int): Heap
    requires Inv(h) && Live(h, s) && s <= c <= End(h.size, s) - SERVICE_FIELDS_SIZE
  {
    var h1 := h.(data := h.data - {s} + {c});
    if c - s <= SERVICE_FIELDS_SIZE then h1.(size := Fold(h.size, Left(h.size, s), s, c))
    else
      SizeIndexInRange(c - s - SERVICE_FIELDS_SIZE);
      Link(h1.(size := Split(h.size, s, c)), s)
  }

  const FIRST_VOID: int := KHEAP_START + SERVICE_FIELDS_SIZE

  /** The three blocks of heap_init before any of their tags is written. */
  function BlankHeap(): Heap {
    Heap(map[KHEAP_START := 0, FIRST_VOID := LAST_BLOCK - FIRST_VOID - SERVICE_FIELDS_SIZE, LAST_BLOCK := 0], {}, {},
         seq(HEAP_VOID_BUCKET_COUNT, _ => []))
  }

  function GuardedHeap(): Heap {
    SetData(SetData(BlankHeap(), KHEAP_START), LAST_BLOCK)
  }

  /** heap_init: two empty guard blocks with one void between them. */
  ghost function InitialHeap(): Heap {
    SizeIndexInRange(BlankHeap().size[FIRST_VOID]);
    Link(GuardedHeap(), FIRST_VOID)
  }

  lemma BlankTiled()
    ensures Tiled(BlankHeap().size) && Listed(BlankHeap()) && Listed(GuardedHeap())
  {
  }

  lemma InitialKeeps()
    ensures Inv(InitialHeap())
    ensures forall s :: !Live(InitialHeap(), s)
  {
    BlankTiled();
    SizeIndexInRange(BlankHeap().size[FIRST_VOID]);
    LinkKeeps(GuardedHeap(), FIRST_VOID);
  }

  // ---- neighbours ----

  /** The block that holds address a: exactly one does. */
  ghost function BlockAt(b: Tiling, a: int): (s: int)
    requires Tiled(b) && KHEAP_START <= a < KHEAP_END
    ensures s in b && s <= a < End(b, s)
    ensures forall t :: t in b && t <= a < t + SERVICE_FIELDS_SIZE + b[t] ==> t == s
    decreases a - KHEAP_START
  {
    if a in b then a else BlockAt(b, a - 1)
  }

  ghost function Left(b: Tiling, s: int): (l: int)
    requires Tiled(b) && s in b && s != KHEAP_START
    ensures l in b && End(b, l) == s
  {
    BlockAt(b, s - 1)
  }

  // ---- the size index ----

  lemma SizeIndexMonotone(n: nat, m: nat)
    requires n <= m
    ensures SizeIndex(n) <= SizeIndex(m)
  {
    if n > 1 {
      BitLengthMonotone(n - 1, m - 1);
    }
  }

  lemma SizeIndexIsCeilLog2(size: nat)
    ensures size <= Pow2(SizeIndex(size))
    ensures SizeIndex(size) > 0 ==> Pow2(SizeIndex(size) - 1) < size
  {
    if size > 1 {
      BitLengthBounds(size - 1);
    }
  }

  /** No block of the heap outgrows the bucket table. */
  lemma SizeIndexInRange(size: nat)
    requires size <= KHEAP_END - KHEAP_START
    ensures SizeIndex(size) < HEAP_VOID_BUCKET_COUNT
  {
    Pow2Values();
    if size > 1 {
      BitLengthBelow(size - 1, 26);
    }
  }

  // ---- lists ----

  lemma {:induction false} WithoutElements(l: seq<int>, s: int)
    requires Distinct(l)
    ensures Distinct(Without(l, s))
    ensures forall t :: t in Without(l, s) <==> t in l && t != s
  {
    if l != [] {
      assert l == [l[0]] + l[1..];
      forall t | t in l[1..] ensures t != l[0] {
        var i :| 0 <= i < |l[1..]| && l[1..][i] == t;
        assert l[i + 1] == t;
      }
      WithoutElements(l[1..], s);
      DistinctCons(l[0], Without(l[1..], s));
    }
  }

  lemma DistinctCons(x: int, l: seq<int>)
    requires Distinct(l) && x !in l
    ensures Distinct([x] + l)
  {
  }

  lemma UnlinkKeeps(h: Heap, s: int)
    requires Listed(h) && s in h.voids && HasBucket(h, s)
    ensures Listed(Unlink(h, s))
  {
    var i := SizeIndex(h.size[s]);
    WithoutElements(h.lists[i], s);
    var l := Without(h.lists[i], s);
    forall k | 0 <= k < |l| ensures InBucket(Unlink(h, s), l[k], i) {
      assert l[k] in l;
    }
  }

  lemma LinkKeeps(h: Heap, s: int)
    requires Listed(h) && s !in h.voids && HasBucket(h, s)
    ensures Listed(Link(h, s))
  {
    var i := SizeIndex(h.size[s]);
    DistinctCons(s, h.lists[i]);
  }

  /** Resizing blocks that are not void leaves the buckets alone. */
  lemma ResizeListed(h: Heap, b: Tiling)
    requires Listed(h)
    requires forall s :: s in h.voids ==> (s in h.size <==> s in b) && (s in b ==> b[s] == h.size[s])
    ensures Listed(h.(size := b))
  {
    var h' := h.(size := b);
    forall i, k | 0 <= i < HEAP_VOID_BUCKET_COUNT && 0 <= k < |h.lists[i]| ensures InBucket(h', h.lists[i][k], i) {
      assert InBucket(h, h.lists[i][k], i);
    }
    forall i, s | 0 <= i < HEAP_VOID_BUCKET_COUNT && InBucket(h', s, i) ensures s in h.lists[i] {
      assert InBucket(h, s, i);
    }
  }

  lemma DataListed(h: Heap, data: set<int>)
    requires Listed(h)
    ensures Listed(h.(data := data))
    ensures |h.lists| == HEAP_VOID_BUCKET_COUNT
  {
  }

  // ---- tilings ----

  lemma JoinTiled(b: Tiling, lo: int, hi: int)
    requires Tiled(b) && lo in b && lo + SERVICE_FIELDS_SIZE <= hi && (hi == KHEAP_END || hi in b)
    ensures Tiled(Join(b, lo, hi))
  {
    var j := Join(b, lo, hi);
    forall t | t in j ensures End(j, t) == KHEAP_END || End(j, t) in j {
      assert t != lo ==> End(j, t) == End(b, t);
    }
  }

  lemma SplitTiled(b: Tiling, s: int, c: int)
    requires Tiled(b) && s in b && s + SERVICE_FIELDS_SIZE <= c <= End(b, s) - SERVICE_FIELDS_SIZE
    ensures c !in b && Tiled(Split(b, s, c))
    ensures End(Split(b, s, c), c) == End(b, s) && End(Split(b, s, c), s) == c
  {
    var e, b' := End(b, s), Split(b, s, c);
    assert c !in b;
    forall t | t in b' ensures End(b', t) == KHEAP_END || End(b', t) in b' {
      assert t != s && t != c ==> End(b', t) == End(b, t);
    }
  }

  lemma ReleaseMergeable(h: Heap, s: int)
    requires Inv(h) && Live(h, s)
    ensures HasBucket(h, s) && End(h.size, s) in h.size && Mergeable(Link(h.(data := h.data - {s}), s), s)
  {
    SizeIndexInRange(h.size[s]);
    LinkKeeps(h.(data := h.data - {s}), s);
    assert s < LAST_BLOCK;
    assert End(h.size, s) <= LAST_BLOCK;
  }

  // ---- malloc ----

  lemma SplitMerged(b: Tiling, voids: set<int>, s: int, c: int)
    requires Tiled(b) && s in b && s + SERVICE_FIELDS_SIZE <= c <= End(b, s) - SERVICE_FIELDS_SIZE
    requires Merged(b, voids) && voids <= b.Keys && End(b, s) !in voids
    ensures Merged(Split(b, s, c), voids - {s} + {c})
  {
    SplitTiled(b, s, c);
    var b' := Split(b, s, c);
    forall t | t in b' && t in voids && t != s ensures End(b', t) !in voids && End(b', t) != c {
      assert End(b', t) == End(b, t);
    }
  }

  /** malloc keeps the heap invariant and turns the chosen void, and nothing else, into a live block. */
  lemma CarveKeeps(h: Heap, s: int, size: nat)
    requires Carvable(h, s, size)
    ensures Inv(Carve(h, s, size))
    ensures Live(Carve(h, s, size), s) && Carve(h, s, size).size[s] >= size
    ensures forall t :: t != s ==> (Live(Carve(h, s, size), t) <==> Live(h, t))
    ensures forall t :: t != s && Live(h, t) ==> Carve(h, s, size).size[t] == h.size[t]
  {
    hide Listed, Within, Chained, Disjoint;
    var c, h1 := s + SERVICE_FIELDS_SIZE + size, SetData(Unlink(h, s), s);
    assert End(h.size, s) !in h.voids;
    UnlinkKeeps(h, s);
    DataListed(Unlink(h, s), h1.data);
    if h.size[s] - size > SERVICE_FIELDS_SIZE {
      var b := Split(h.size, s, c);
      SplitTiled(h.size, s, c);
      SplitMerged(h.size, h.voids, s, c);
      ResizeListed(h1, b);
      SizeIndexMonotone(h.size[s] - size - SERVICE_FIELDS_SIZE, h.size[s]);
      LinkKeeps(h1.(size := b), c);
    }
  }

  // ---- free ----

  lemma DetachKeeps(h: Heap, s: int)
    requires Mergeable(h, s)
    ensures Listed(Detach(h, s))
  {
    var h1 := UnlinkIfVoid(h, Left(h.size, s));
    var h2 := UnlinkIfVoid(h1, End(h.size, s));
    UnlinkIfVoidKeeps(h, Left(h.size, s));
    UnlinkIfVoidKeeps(h1, End(h.size, s));
    UnlinkIfVoidKeeps(h2, s);
  }

  lemma UnlinkIfVoidKeeps(h: Heap, s: int)
    requires Tiled(h.size) && Listed(h) && s in h.size
    ensures Listed(UnlinkIfVoid(h, s))
  {
    SizeIndexInRange(h.size[s]);
    if s in h.voids {
      UnlinkKeeps(h, s);
    }
  }

  /** s lies between the blocks l and r, and [lo, hi) is s with those of them that are void. */
  ghost predicate Around(b: Tiling, voids: set<int>, l: int, s: int, lo: int, hi: int) {
    && Tiled(b) && s in b && l in b && End(b, l) == s && End(b, s) in b
    && lo == (if l in voids then l else s)
    && hi == (if End(b, s) in voids then End(b, End(b, s)) else End(b, s))
  }

  lemma NoneInside(b: Tiling, s: int)
    requires Tiled(b) && s in b
    ensures forall t :: t in b && s < t ==> End(b, s) <= t
  {
  }

  /** Joining the voids around s removes the starts of s and of its right neighbour, as far as they are swallowed. */
  lemma JoinKeys(b: Tiling, voids: set<int>, l: int, s: int, lo: int, hi: int)
    requires Around(b, voids, l, s, lo, hi)
    ensures lo in b && lo + SERVICE_FIELDS_SIZE <= hi && (hi == KHEAP_END || hi in b)
    ensures forall t :: t in Join(b, lo, hi) <==> t in b && (t == s ==> lo == s) && (t == End(b, s) ==> hi == t)
    ensures forall t :: t in Join(b, lo, hi) && t != lo ==> Join(b, lo, hi)[t] == b[t]
  {
    var r := End(b, s);
    NoneInside(b, l);
    NoneInside(b, s);
    NoneInside(b, r);
  }

  /** Beside the joined void there is no other one. */
  lemma JoinMerged(b: Tiling, voids: set<int>, l: int, s: int, lo: int, hi: int)
    requires Around(b, voids, l, s, lo, hi) && Merged(b, voids) && s !in voids
    ensures lo + SERVICE_FIELDS_SIZE <= hi && Merged(Join(b, lo, hi), voids - {End(b, s)} + {lo})
  {
    JoinKeys(b, voids, l, s, lo, hi);
    var b', voids' := Join(b, lo, hi), voids - {End(b, s)} + {lo};
    assert End(b', lo) == hi;
    assert hi !in voids';
    forall t | t in b' && t in voids' && t != lo ensures End(b', t) !in voids' {
      assert End(b', t) == End(b, t);
      assert End(b, t) == s ==> t == l;
    }
  }

  lemma MergedListed(h: Heap, b: Tiling, lo: int)
    requires Listed(h) && lo in b && lo !in h.voids && SizeIndex(b[lo]) < HEAP_VOID_BUCKET_COUNT
    requires forall t :: t in h.voids ==> (t in h.size <==> t in b) && (t in b ==> b[t] == h.size[t])
    ensures Listed(Link(h.(size := b), lo))
  {
    ResizeListed(h, b);
    LinkKeeps(h.(size := b), lo);
  }

  lemma TryMergeListed(h: Heap, s: int)
    requires Mergeable(h, s)
    ensures Listed(TryMerge(h, s))
  {
    var lo, hi := MergeStart(h, s), MergeEnd(h, s);
    if lo != s || hi != End(h.size, s) {
      var b := Join(h.size, lo, hi);
      DetachKeeps(h, s);
      JoinKeys(h.size, h.voids, Left(h.size, s), s, lo, hi);
      SizeIndexInRange(b[lo]);
      MergedListed(Detach(h, s), b, lo);
    }
  }

  lemma TryMergeShape(h: Heap, s: int)
    requires Mergeable(h, s)
    ensures TryMerge(h, s).size == Join(h.size, MergeStart(h, s), MergeEnd(h, s)) && TryMerge(h, s).data == h.data
    ensures TryMerge(h, s).voids == h.voids - {s, End(h.size, s)} + {MergeStart(h, s)}
  {
    hide Listed, Within, Chained, Disjoint;
    if MergeStart(h, s) == s && MergeEnd(h, s) == End(h.size, s) {
      NoneInside(h.size, s);
      assert Join(h.size, s, End(h.size, s)) == h.size;
    }
  }

  /** free turns the block and the voids beside it into one void. */
  lemma ReleaseStructure(h: Heap, s: int)
    requires Inv(h) && Live(h, s)
    requires End(h.size, s) in h.size
    ensures
      var lo, hi := MergeStart(h, s), MergeEnd(h, s);
      && Release(h, s).size == Join(h.size, lo, hi)
      && Release(h, s).data == h.data - {s}
      && Release(h, s).voids == h.voids - {End(h.size, s)} + {lo}
      && Listed(Release(h, s))
  {
    hide Listed, Merged, Within, Chained, Disjoint, Join;
    ReleaseMergeable(h, s);
    SameEnds(h, s);
    TryMergeListed(Link(h.(data := h.data - {s}), s), s);
    TryMergeShape(Link(h.(data := h.data - {s}), s), s);
  }

  lemma SameEnds(h: Heap, s: int)
    requires Inv(h) && Live(h, s) && HasBucket(h, s) && End(h.size, s) in h.size
    ensures
      var h1 := Link(h.(data := h.data - {s}), s);
      s !in h.voids && MergeStart(h1, s) == MergeStart(h, s) && MergeEnd(h1, s) == MergeEnd(h, s)
  {
    hide Listed, Merged, Chained, Disjoint;
  }

  lemma ReleasedSettled(h: Heap, h': Heap, l: int, s: int, lo: int, hi: int)
    requires Settled(h) && Guarded(h) && Live(h, s) && Around(h.size, h.voids, l, s, lo, hi)
    requires h'.size == Join(h.size, lo, hi) && h'.data == h.data - {s} && h'.voids == h.voids - {End(h.size, s)} + {lo}
    ensures Settled(h') && Guarded(h')
  {
    JoinKeys(h.size, h.voids, l, s, lo, hi);
  }

  /** free keeps the heap invariant and ends the life of its block, and of nothing else. */
  lemma ReleaseKeeps(h: Heap, s: int)
    requires Inv(h) && Live(h, s)
    ensures Inv(Release(h, s))
    ensures forall t :: Live(Release(h, s), t) <==> Live(h, t) && t != s
    ensures forall t :: t != s && Live(h, t) ==> Release(h, s).size[t] == h.size[t]
  {
    hide Listed, Within, Chained, Disjoint, Join, Release;
    ReleaseMergeable(h, s);
    var l, lo, hi := Left(h.size, s), MergeStart(h, s), MergeEnd(h, s);
    ReleaseStructure(h, s);
    JoinKeys(h.size, h.voids, l, s, lo, hi);
    JoinTiled(h.size, lo, hi);
    JoinMerged(h.size, h.voids, l, s, lo, hi);
    ReleasedSettled(h, Release(h, s), l, s, lo, hi);
  }
}
