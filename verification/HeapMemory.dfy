/**
 * How a heap state lies in memory: boundary tags around every block and, in the header of a void, the links of its
 * bucket list. The lemmas say what the few word writes of the allocator do to that picture.
 */
module HeapMemory {
  import opened Machine
  import opened HeapModel

  const HEAP_DATA_BLOCK_MAGIC: uint32 := 0x600D_B10C
  const HEAP_VOID_BLOCK_MAGIC: uint32 := 0xDEFE_C8ED
  const NULL: int := 0


  // ---- the picture ----

  /** Header and footer of a block: signature and size, size and signature. */
  ghost predicate Tags(m: seq<byte>, s: int, n: int, magic: uint32)
    requires |m| == TWO_32
  {
    && 0 <= s && 0 <= n && s + SERVICE_FIELDS_SIZE + n <= TWO_32
    && Load(m, s) == magic && Load(m, s + 4) == n
    && Load(m, s + LEFT_EDGE_SIZE + n) == n && Load(m, s + LEFT_EDGE_SIZE + n + 4) == magic
  }

  ghost predicate Tagged(m: seq<byte>, h: Heap)
    requires |m| == TWO_32
  {
    && (forall s :: s in h.data ==> s in h.size && Tags(m, s, h.size[s], HEAP_DATA_BLOCK_MAGIC))
    && (forall s :: s in h.voids ==> s in h.size && Tags(m, s, h.size[s], HEAP_VOID_BLOCK_MAGIC))
  }

  function Nth(l: seq<int>, k: int): int {
    if 0 <= k < |l| then l[k] else NULL
  }

  /** A doubly linked list from root r on: left at offset 8, right at offset 12 of every node. */
  ghost predicate ListAt(m: seq<byte>, r: int, l: seq<int>)
    requires |m| == TWO_32
  {
    && r == Nth(l, 0)
    && (forall k :: 0 <= k < |l| ==> NodeAt(m, l, k))
  }

  ghost predicate NodeAt(m: seq<byte>, l: seq<int>, k: nat)
    requires |m| == TWO_32 && k < |l|
  {
    && 0 < l[k] <= TWO_32 - LEFT_EDGE_SIZE
    && Load(m, l[k] + 8) == Nth(l, k - 1) && Load(m, l[k] + 12) == Nth(l, k + 1)
  }

  ghost predicate Linked(m: seq<byte>, roots: seq<uint32>, lists: seq<seq<int>>)
    requires |m| == TWO_32
  {
    |roots| == |lists| && forall i :: 0 <= i < |lists| ==> ListAt(m, roots[i], lists[i])
  }

  ghost predicate Represents(m: seq<byte>, roots: seq<uint32>, h: Heap) {
    && |m| == TWO_32 && Tiled(h.size) && Listed(h) && h.data !! h.voids
    && Tagged(m, h) && Linked(m, roots, h.lists)
  }

  /** The payloads of the given data blocks hold the same bytes in both memories. */
  ghost predicate SamePayloads(m: seq<byte>, m': seq<byte>, b: Tiling, starts: set<int>)
    requires |m| == |m'| == TWO_32 && Within(b)
  {
    forall s, a :: s in starts && s in b && s + LEFT_EDGE_SIZE <= a < s + LEFT_EDGE_SIZE + b[s] ==> m'[a] == m[a]
  }

  // ---- the writes ----

  /** create_data_block, and the tags of create_void_block_default. */
  function WriteTags(m: seq<byte>, s: int, n: nat, magic: uint32): (r: seq<byte>)
    requires |m| == TWO_32 && 0 <= s && s + SERVICE_FIELDS_SIZE + n <= TWO_32
    ensures |r| == TWO_32 && Tags(r, s, n, magic)
    ensures forall a :: 0 <= a < TWO_32 && !(s <= a < s + 8) ==>
      !(s + LEFT_EDGE_SIZE + n <= a < s + SERVICE_FIELDS_SIZE + n) ==> r[a] == m[a]
  {
    var foot := s + LEFT_EDGE_SIZE + n;
    Store(Store(Store(Store(m, s, magic), s + 4, n), foot, n), foot + 4, magic)
  }

  /** The header of a void. */
  function WriteHead(m: seq<byte>, s: int, n: nat): (r: seq<byte>)
    requires |m| == TWO_32 && 0 <= s && s + SERVICE_FIELDS_SIZE + n <= TWO_32
    ensures |r| == TWO_32 && Load(r, s) == HEAP_VOID_BLOCK_MAGIC && Load(r, s + 4) == n
    ensures Load(r, s + 8) == NULL && Load(r, s + 12) == NULL
    ensures forall a :: 0 <= a < TWO_32 && !(s <= a < s + LEFT_EDGE_SIZE) ==> r[a] == m[a]
  {
    Store(Store(Store(Store(m, s, HEAP_VOID_BLOCK_MAGIC), s + 4, n), s + 8, NULL), s + 12, NULL)
  }

  /** create_void_block_default. */
  function WriteVoid(m: seq<byte>, s: int, n: nat): (r: seq<byte>)
    requires |m| == TWO_32 && 0 <= s && s + SERVICE_FIELDS_SIZE + n <= TWO_32
    ensures |r| == TWO_32 && Tags(r, s, n, HEAP_VOID_BLOCK_MAGIC) && Load(r, s + 8) == NULL && Load(r, s + 12) == NULL
    ensures forall a :: 0 <= a < TWO_32 && !(s <= a < s + LEFT_EDGE_SIZE) ==>
      !(s + LEFT_EDGE_SIZE + n <= a < s + SERVICE_FIELDS_SIZE + n) ==> r[a] == m[a]
  {
    var foot := s + LEFT_EDGE_SIZE + n;
    Store(Store(WriteHead(m, s, n), foot, n), foot + 4, HEAP_VOID_BLOCK_MAGIC)
  }

  /** heap_block_erase: the signature of the header, and the first word of the footer, which is its size. */
  function EraseTags(m: seq<byte>, s: int, n: nat): (r: seq<byte>)
    requires |m| == TWO_32 && 0 <= s && s + SERVICE_FIELDS_SIZE + n <= TWO_32
    ensures |r| == TWO_32 && Load(r, s + 4) == Load(m, s + 4)
    ensures forall a :: 0 <= a < TWO_32 && !(s <= a < s + 4) ==>
      !(s + LEFT_EDGE_SIZE + n <= a < s + LEFT_EDGE_SIZE + n + 4) ==> r[a] == m[a]
  {
    Store(Store(m, s, 0), s + LEFT_EDGE_SIZE + n, 0)
  }

  /** heap_void_bucket_erase on the links around node s. */
  function UnlinkWords(m: seq<byte>, left: uint32, right: uint32): (r: seq<byte>)
    requires |m| == TWO_32 && left <= TWO_32 - LEFT_EDGE_SIZE && right <= TWO_32 - LEFT_EDGE_SIZE
    ensures |r| == TWO_32
    ensures forall a :: 0 <= a < TWO_32 && !(left != NULL && left + 12 <= a < left + 16) ==>
      !(right != NULL && right + 8 <= a < right + 12) ==> r[a] == m[a]
  {
    var m1 := if left != NULL then Store(m, left + 12, right) else m;
    if right != NULL then Store(m1, right + 8, left) else m1
  }

  /** heap_void_bucket_add_begin. */
  function PushWords(m: seq<byte>, root: uint32, s: uint32): (r: seq<byte>)
    requires |m| == TWO_32 && s <= TWO_32 - LEFT_EDGE_SIZE && root <= TWO_32 - LEFT_EDGE_SIZE
    ensures |r| == TWO_32
    ensures forall a :: 0 <= a < TWO_32 && !(s + 12 <= a < s + 16) && !(root != NULL && root + 8 <= a < root + 12) ==>
      r[a] == m[a]
  {
    var m1 := Store(m, s + 12, root);
    if root != NULL then Store(m1, root + 8, s) else m1
  }

  // ---- frames ----

  /** A word outside the changed bytes is unchanged. */
  lemma SameWord(m: seq<byte>, m': seq<byte>, a: nat)
    requires |m| == |m'| && a + 4 <= |m|
    requires m'[a] == m[a] && m'[a + 1] == m[a + 1] && m'[a + 2] == m[a + 2] && m'[a + 3] == m[a + 3]
    ensures Load(m', a) == Load(m, a)
  {
  }

  /** All blocks but s keep their tags and links when only bytes of block s change. */
  lemma OutsideBlock(m: seq<byte>, m': seq<byte>, h: Heap, s: int, t: int)
    requires |m| == |m'| == TWO_32 && Tiled(h.size) && s in h.size && t in h.size && t != s
    requires forall a :: 0 <= a < TWO_32 && !(s <= a < End(h.size, s)) ==> m'[a] == m[a]
    ensures forall a {:trigger Load(m', a)} :: t <= a <= End(h.size, t) - 4 ==> Load(m', a) == Load(m, a)
  {
    forall a {:trigger Load(m', a)} | t <= a <= End(h.size, t) - 4 ensures Load(m', a) == Load(m, a) {
      assert End(h.size, s) <= t || End(h.size, t) <= s;
      SameWord(m, m', a);
    }
  }

  /** Rewriting a block that is neither data nor void disturbs nothing. */
  lemma RawRewritten(m: seq<byte>, m': seq<byte>, roots: seq<uint32>, h: Heap, s: int)
    requires Represents(m, roots, h) && |m'| == TWO_32 && s in h.size && s !in h.data && s !in h.voids
    requires forall a :: 0 <= a < TWO_32 && !(s <= a < End(h.size, s)) ==> m'[a] == m[a]
    ensures Represents(m', roots, h) && SamePayloads(m, m', h.size, h.data)
  {
    forall t | t in h.size && t != s
      ensures forall a {:trigger Load(m', a)} :: t <= a <= End(h.size, t) - 4 ==> Load(m', a) == Load(m, a)
    {
      OutsideBlock(m, m', h, s, t);
    }
    forall i | 0 <= i < |h.lists| ensures ListAt(m', roots[i], h.lists[i]) {
      var l := h.lists[i];
      assert ListAt(m, roots[i], l);
      forall k | 0 <= k < |l| ensures NodeAt(m', l, k) {
        assert InBucket(h, l[k], i) && NodeAt(m, l, k);
      }
    }
  }

  /** Only link words change. */
  ghost predicate LinksOnly(m: seq<byte>, m': seq<byte>, h: Heap)
    requires |m| == |m'| == TWO_32
  {
    forall a :: 0 <= a < TWO_32 && m'[a] != m[a] ==> exists t :: t in h.voids && t + 8 <= a < t + 16
  }

  lemma OutsideLinks(m: seq<byte>, m': seq<byte>, h: Heap)
    requires |m| == |m'| == TWO_32 && Tiled(h.size) && LinksOnly(m, m', h)
    requires forall u :: u in h.voids ==> u in h.size
    ensures Within(h.size)
    ensures forall t, a :: t in h.size && t <= a < End(h.size, t) && !(t + 8 <= a < t + 16) ==> m'[a] == m[a]
  {
    forall t, a | t in h.size && t <= a < End(h.size, t) && !(t + 8 <= a < t + 16) ensures m'[a] == m[a] {
      assert forall u :: u in h.voids && u + 8 <= a < u + 16 ==> u == t;
    }
  }

  lemma TagsOutlive(m: seq<byte>, m': seq<byte>, h: Heap)
    requires |m| == |m'| == TWO_32 && Tiled(h.size) && Tagged(m, h) && LinksOnly(m, m', h)
    ensures Tagged(m', h) && SamePayloads(m, m', h.size, h.data - h.voids)
  {
    hide Tiled, Tags;
    OutsideLinks(m, m', h);
    forall t, magic | t in h.size && Tags(m, t, h.size[t], magic) ensures Tags(m', t, h.size[t], magic) {
      TagsSame(m, m', t, h.size[t], magic);
    }
  }

  lemma TagsSame(m: seq<byte>, m': seq<byte>, t: int, n: int, magic: uint32)
    requires |m| == |m'| == TWO_32 && Tags(m, t, n, magic)
    requires forall a :: 0 <= a < TWO_32 && t <= a < t + SERVICE_FIELDS_SIZE + n && !(t + 8 <= a < t + 16) ==>
      m'[a] == m[a]
    ensures Tags(m', t, n, magic)
  {
    hide Load;
    var foot := t + LEFT_EDGE_SIZE + n;
    SameWord(m, m', t);
    SameWord(m, m', t + 4);
    SameWord(m, m', foot);
    SameWord(m, m', foot + 4);
  }

  // ---- pushing a void ----

  /** The links after heap_void_bucket_add_begin, one list at a time. */
  lemma PushList(m: seq<byte>, root: uint32, l: seq<int>, s: int)
    requires |m| == TWO_32 && ListAt(m, root, l) && 0 < s <= TWO_32 - LEFT_EDGE_SIZE && Load(m, s + 8) == NULL
    requires Distinct(l) && forall k :: 0 <= k < |l| ==> Apart(l[k], s)
    requires forall j, k :: 0 <= j < k < |l| ==> Apart(l[j], l[k])
    ensures root <= TWO_32 - LEFT_EDGE_SIZE && ListAt(PushWords(m, root, s), s, [s] + l)
  {
    hide Load, Store;
    assert l != [] ==> NodeAt(m, l, 0);
    var m', l' := PushWords(m, root, s), [s] + l;
    forall k | 0 <= k < |l'| ensures NodeAt(m', l', k) {
      if k > 0 {
        assert NodeAt(m, l, k - 1);
        assert k > 1 ==> Apart(l[0], l[k - 1]);
      }
    }
  }

  /** Headers of different blocks do not overlap. */
  ghost predicate Apart(s: int, t: int) {
    s + LEFT_EDGE_SIZE <= t || t + LEFT_EDGE_SIZE <= s
  }

  /** Lists without the two patched nodes stay as they are. */
  lemma ListOutlives(m: seq<byte>, m': seq<byte>, r: int, l: seq<int>)
    requires |m| == |m'| == TWO_32 && ListAt(m, r, l)
    requires forall k, a :: 0 <= k < |l| && 0 <= a < TWO_32 && l[k] + 8 <= a < l[k] + 16 ==> m'[a] == m[a]
    ensures ListAt(m', r, l)
  {
    forall k | 0 <= k < |l| ensures NodeAt(m', l, k) {
      assert NodeAt(m, l, k);
      SameWord(m, m', l[k] + 8);
      SameWord(m, m', l[k] + 12);
    }
  }

  lemma ListApart(h: Heap, i: nat, j: nat)
    requires Tiled(h.size) && Listed(h) && i < HEAP_VOID_BUCKET_COUNT && j < HEAP_VOID_BUCKET_COUNT
    ensures forall a, b :: 0 <= a < |h.lists[i]| && 0 <= b < |h.lists[j]| && (i != j || a != b) ==>
      Apart(h.lists[i][a], h.lists[j][b])
  {
    forall a, b | 0 <= a < |h.lists[i]| && 0 <= b < |h.lists[j]| && (i != j || a != b)
      ensures Apart(h.lists[i][a], h.lists[j][b])
    {
      assert InBucket(h, h.lists[i][a], i) && InBucket(h, h.lists[j][b], j);
      assert h.lists[i][a] != h.lists[j][b];
    }
  }

  /** heap_void_bucket_add_begin makes the freshly written void s the root of its bucket. */
  lemma PushRepresents(m: seq<byte>, roots: seq<uint32>, h: Heap, s: int)
    requires Represents(m, roots, h) && s !in h.data && s !in h.voids && HasBucket(h, s)
    requires Tags(m, s, h.size[s], HEAP_VOID_BLOCK_MAGIC) && Load(m, s + 8) == NULL
    ensures
      var i := SizeIndex(h.size[s]);
      && roots[i] <= TWO_32 - LEFT_EDGE_SIZE
      && Represents(PushWords(m, roots[i], s), roots[i := s], Link(h, s))
      && SamePayloads(m, PushWords(m, roots[i], s), h.size, h.data)
  {
    hide Load, Store;
    var i := SizeIndex(h.size[s]);
    var l := h.lists[i];
    assert ListAt(m, roots[i], l);
    forall j, k | 0 <= j < |h.lists| && 0 <= k < |h.lists[j]| ensures Apart(h.lists[j][k], s) {
      assert InBucket(h, h.lists[j][k], j);
    }
    ListApart(h, i, i);
    PushList(m, roots[i], l, s);
    var m' := PushWords(m, roots[i], s);
    LinkKeeps(h, s);
    var h' := Link(h, s);
    assert roots[i] != NULL ==> InBucket(h, l[0], i);
    forall a | 0 <= a < TWO_32 && m'[a] != m[a] ensures exists t :: t in h'.voids && t + 8 <= a < t + 16 {
      assert s in h'.voids && (roots[i] != NULL ==> l[0] in h'.voids);
      assert s + 12 <= a < s + 16 || (roots[i] != NULL && l[0] + 8 <= a < l[0] + 12);
    }
    assert Tagged(m, h');
    assert LinksOnly(m, m', h');
    TagsOutlive(m, m', h');
    forall j | 0 <= j < |h.lists| && j != i ensures ListAt(m', roots[j], h.lists[j]) {
      ListApart(h, i, j);
      ListOutlives(m, m', roots[j], h.lists[j]);
    }
  }

  // ---- unlinking a void ----

  ghost function Cut(l: seq<int>, k: nat): (r: seq<int>)
    requires k < |l|
    ensures |r| == |l| - 1
  {
    l[..k] + l[k + 1..]
  }

  lemma {:induction false} WithoutCuts(l: seq<int>, k: nat)
    requires Distinct(l) && k < |l|
    ensures Without(l, l[k]) == Cut(l, k)
  {
    if k > 0 {
      assert l[1..][k - 1] == l[k];
      WithoutCuts(l[1..], k - 1);
      CutRest(l, k);
    }
  }

  lemma CutRest(l: seq<int>, k: nat)
    requires 0 < k < |l|
    ensures Cut(l, k) == [l[0]] + Cut(l[1..], k - 1)
  {
  }

  lemma CutNth(l: seq<int>, k: nat, j: nat)
    requires k < |l| && j < |Cut(l, k)|
    ensures
      var i := if j < k then j else j + 1;
      && Cut(l, k)[j] == l[i]
      && Nth(Cut(l, k), j - 1) == Nth(l, if j == k then k - 1 else i - 1)
      && Nth(Cut(l, k), j + 1) == Nth(l, if j + 1 == k then k + 1 else i + 1)
  {
  }

  /** The links of node i once node k is unlinked. */
  lemma CutNode(m: seq<byte>, l: seq<int>, k: nat, i: nat, left: uint32, right: uint32)
    requires |m| == TWO_32 && k < |l| && i < |l| && i != k && NodeAt(m, l, i) && left == Nth(l, k - 1)
    requires right == Nth(l, k + 1)
    requires left <= TWO_32 - LEFT_EDGE_SIZE && right <= TWO_32 - LEFT_EDGE_SIZE
    requires left != NULL && i != k - 1 ==> Apart(l[i], left)
    requires right != NULL && i != k + 1 ==> Apart(l[i], right)
    ensures
      var m' := UnlinkWords(m, left, right);
      && Load(m', l[i] + 8) == (if i == k + 1 then left else Nth(l, i - 1))
      && Load(m', l[i] + 12) == (if i + 1 == k then right else Nth(l, i + 1))
  {
    hide Load, Store;
  }

  /** The links after heap_void_bucket_erase of the k-th node of a list. */
  lemma CutList(m: seq<byte>, root: uint32, l: seq<int>, k: nat, left: uint32, right: uint32)
    requires |m| == TWO_32 && ListAt(m, root, l) && k < |l| && left == Nth(l, k - 1) && right == Nth(l, k + 1)
    requires left <= TWO_32 - LEFT_EDGE_SIZE && right <= TWO_32 - LEFT_EDGE_SIZE
    requires forall i, j :: 0 <= i < j < |l| ==> Apart(l[i], l[j])
    ensures ListAt(UnlinkWords(m, left, right), if k == 0 then right else root, Cut(l, k))
  {
    hide Load, Store, UnlinkWords, Cut;
    var l', m' := Cut(l, k), UnlinkWords(m, left, right);
    forall j | 0 <= j < |l'| ensures NodeAt(m', l', j) {
      var i := if j < k then j else j + 1;
      assert NodeAt(m, l, i);
      CutNode(m, l, k, i, left, right);
      CutNth(l, k, j);
    }
    if |l| > 1 {
      CutNth(l, k, 0);
    }
  }

  /** The k-th node of bucket list i, and the links around it. */
  ghost predicate Linking(m: seq<byte>, roots: seq<uint32>, h: Heap, s: int, k: nat, left: int, right: int) {
    && Represents(m, roots, h) && s in h.voids && HasBucket(h, s)
    && var l := h.lists[SizeIndex(h.size[s])];
    && k < |l| && l[k] == s && left == Nth(l, k - 1) && right == Nth(l, k + 1)
  }

  lemma FindNode(m: seq<byte>, roots: seq<uint32>, h: Heap, s: int) returns (k: nat)
    requires Represents(m, roots, h) && s in h.voids && HasBucket(h, s)
    ensures |roots| == |h.lists| && 0 <= s && End(h.size, s) <= TWO_32
    ensures k < |h.lists[SizeIndex(h.size[s])]|
    ensures
      var l := h.lists[SizeIndex(h.size[s])];
      Linking(m, roots, h, s, k, Nth(l, k - 1), Nth(l, k + 1))
  {
    var i := SizeIndex(h.size[s]);
    assert InBucket(h, s, i);
    k :| 0 <= k < |h.lists[i]| && h.lists[i][k] == s;
  }

  /** What the code reads before it unlinks s. */
  lemma LinksOfNode(m: seq<byte>, roots: seq<uint32>, h: Heap, s: int, k: nat, left: int, right: int)
    requires Linking(m, roots, h, s, k, left, right)
    ensures 0 <= left <= TWO_32 - LEFT_EDGE_SIZE && 0 <= right <= TWO_32 - LEFT_EDGE_SIZE
    ensures Load(m, s + 8) == left && Load(m, s + 12) == right
    ensures roots[SizeIndex(h.size[s])] == s <==> k == 0
    ensures left != NULL ==> left in h.voids
    ensures right != NULL ==> right in h.voids
  {
    hide Load, Store;
    var i := SizeIndex(h.size[s]);
    var l := h.lists[i];
    assert ListAt(m, roots[i], l) && NodeAt(m, l, k);
    assert k > 0 ==> NodeAt(m, l, k - 1) && InBucket(h, l[k - 1], i);
    assert k + 1 < |l| ==> NodeAt(m, l, k + 1) && InBucket(h, l[k + 1], i);
  }

  lemma UnlinkLinks(m: seq<byte>, roots: seq<uint32>, h: Heap, s: int, k: nat, left: uint32, right: uint32)
    requires Linking(m, roots, h, s, k, left, right) && left <= TWO_32 - LEFT_EDGE_SIZE
    requires right <= TWO_32 - LEFT_EDGE_SIZE
    ensures
      var i, m' := SizeIndex(h.size[s]), UnlinkWords(m, left, right);
      && Tagged(m', h) && SamePayloads(m, m', h.size, h.data)
      && Linked(m', roots[i := if k == 0 then right else roots[i]], Unlink(h, s).lists)
  {
    hide Load, Store, ListAt, Tags, UnlinkWords;
    LinksOfNode(m, roots, h, s, k, left, right);
    UnlinkOwn(m, roots, h, s, k, left, right);
    UnlinkOthers(m, roots, h, s, k, left, right);
    TagsOutlive(m, UnlinkWords(m, left, right), h);
  }

  lemma UnlinkOwn(m: seq<byte>, roots: seq<uint32>, h: Heap, s: int, k: nat, left: uint32, right: uint32)
    requires Linking(m, roots, h, s, k, left, right) && left <= TWO_32 - LEFT_EDGE_SIZE
    requires right <= TWO_32 - LEFT_EDGE_SIZE
    ensures
      var i := SizeIndex(h.size[s]);
      ListAt(UnlinkWords(m, left, right), if k == 0 then right else roots[i], Without(h.lists[i], s))
  {
    hide Load, Store, UnlinkWords;
    var i := SizeIndex(h.size[s]);
    ListApart(h, i, i);
    CutList(m, roots[i], h.lists[i], k, left, right);
    WithoutCuts(h.lists[i], k);
  }

  /** The nodes beside s are in its list, so that the other lists and all tags outlive the patch. */
  lemma UnlinkOthers(m: seq<byte>, roots: seq<uint32>, h: Heap, s: int, k: nat, left: uint32, right: uint32)
    requires Linking(m, roots, h, s, k, left, right) && left <= TWO_32 - LEFT_EDGE_SIZE
    requires right <= TWO_32 - LEFT_EDGE_SIZE
    ensures
      var m' := UnlinkWords(m, left, right);
      && LinksOnly(m, m', h)
      && forall j :: 0 <= j < |h.lists| && j != SizeIndex(h.size[s]) ==> ListAt(m', roots[j], h.lists[j])
  {
    hide Load, Store;
    var i, m' := SizeIndex(h.size[s]), UnlinkWords(m, left, right);
    LinksOfNode(m, roots, h, s, k, left, right);
    forall j | 0 <= j < |h.lists| && j != i ensures ListAt(m', roots[j], h.lists[j]) {
      ListApart(h, i, j);
      ListOutlives(m, m', roots[j], h.lists[j]);
    }
  }

  /** heap_void_bucket_erase of the void s, which is the k-th of its list. */
  lemma UnlinkRepresents(m: seq<byte>, roots: seq<uint32>, h: Heap, s: int, k: nat, left: uint32, right: uint32)
    requires Linking(m, roots, h, s, k, left, right) && left <= TWO_32 - LEFT_EDGE_SIZE
    requires right <= TWO_32 - LEFT_EDGE_SIZE
    ensures
      var i, n, m' := SizeIndex(h.size[s]), h.size[s], UnlinkWords(m, left, right);
      && Tags(m', s, n, HEAP_VOID_BLOCK_MAGIC)
      && Represents(EraseTags(m', s, n), roots[i := if k == 0 then right else roots[i]], Unlink(h, s))
      && SamePayloads(m, EraseTags(m', s, n), h.size, h.data)
  {
    hide Load, Store, EraseTags, UnlinkWords;
    UnlinkLinks(m, roots, h, s, k, left, right);
    UnlinkKeeps(h, s);
    var m', i := UnlinkWords(m, left, right), SizeIndex(h.size[s]);
    RawRewritten(m', EraseTags(m', s, h.size[s]), roots[i := if k == 0 then right else roots[i]], Unlink(h, s), s);
  }

  // ---- data blocks ----

  /** create_data_block on an erased block. */
  lemma DataRepresents(m: seq<byte>, roots: seq<uint32>, h: Heap, s: int)
    requires Represents(m, roots, h) && s in h.size && s !in h.data && s !in h.voids
    ensures 0 <= s && End(h.size, s) <= TWO_32
    ensures
      var m' := WriteTags(m, s, h.size[s], HEAP_DATA_BLOCK_MAGIC);
      Represents(m', roots, SetData(h, s)) && SamePayloads(m, m', h.size, h.data)
  {
    hide Load, Store;
    var m' := WriteTags(m, s, h.size[s], HEAP_DATA_BLOCK_MAGIC);
    RawRewritten(m, m', roots, h, s);
  }

  /** heap_block_erase on a data block. */
  lemma EraseRepresents(m: seq<byte>, roots: seq<uint32>, h: Heap, s: int)
    requires Represents(m, roots, h) && s in h.data
    ensures s in h.size && 0 <= s && End(h.size, s) <= TWO_32
    ensures
      var m' := EraseTags(m, s, h.size[s]);
      Represents(m', roots, h.(data := h.data - {s})) && SamePayloads(m, m', h.size, h.data)
  {
    hide Load, Store;
    var h' := h.(data := h.data - {s});
    assert Represents(m, roots, h');
    RawRewritten(m, EraseTags(m, s, h.size[s]), roots, h', s);
  }

  /** A data block may be taken for an untagged one. */
  lemma ForgetData(m: seq<byte>, roots: seq<uint32>, h: Heap, s: int)
    requires Represents(m, roots, h)
    ensures Represents(m, roots, h.(data := h.data - {s}))
  {
    hide Load;
    assert Listed(h.(data := h.data - {s}));
  }

  /** Blocks without tags may be cut and joined at will. */
  lemma ReshapeRepresents(m: seq<byte>, roots: seq<uint32>, h: Heap, b: Tiling)
    requires Represents(m, roots, h) && Tiled(b)
    requires forall t :: t in h.data || t in h.voids ==> t in b && b[t] == h.size[t]
    ensures Represents(m, roots, h.(size := b))
  {
    hide Load, Store;
    ResizeListed(h, b);
  }

  /** create_void_block_default over blocks without tags, cut or joined to the tiling b first. */
  lemma VoidWritten(m: seq<byte>, roots: seq<uint32>, h: Heap, b: Tiling, s: int)
    requires Represents(m, roots, h) && Tiled(b) && s in b && s !in h.data && s !in h.voids
    requires forall t :: t in h.data || t in h.voids ==> t in b && b[t] == h.size[t]
    ensures KHEAP_START <= s && s + SERVICE_FIELDS_SIZE <= End(b, s) <= KHEAP_END
    ensures
      var m', h' := WriteVoid(m, s, b[s]), h.(size := b);
      && Represents(m', roots, h') && HasBucket(h', s) && SamePayloads(m, m', h.size, h.data)
      && Tags(m', s, b[s], HEAP_VOID_BLOCK_MAGIC) && Load(m', s + 8) == NULL && Load(m', s + 4) == b[s]
  {
    hide Load, Store, WriteVoid;
    ReshapeRepresents(m, roots, h, b);
    SizeIndexInRange(b[s]);
    RawRewritten(m, WriteVoid(m, s, b[s]), roots, h.(size := b), s);
  }

  /** create_data_block likewise. */
  lemma DataWritten(m: seq<byte>, roots: seq<uint32>, h: Heap, b: Tiling, s: int)
    requires Represents(m, roots, h) && Tiled(b) && s in b && s !in h.data && s !in h.voids
    requires forall t :: t in h.data || t in h.voids ==> t in b && b[t] == h.size[t]
    ensures KHEAP_START <= s && s + SERVICE_FIELDS_SIZE <= End(b, s) <= KHEAP_END
    ensures
      var m', h' := WriteTags(m, s, b[s], HEAP_DATA_BLOCK_MAGIC), SetData(h.(size := b), s);
      Represents(m', roots, h') && SamePayloads(m, m', h.size, h.data) && Load(m', s + 4) == b[s]
  {
    hide Load, Store, WriteTags;
    ReshapeRepresents(m, roots, h, b);
    DataRepresents(m, roots, h.(size := b), s);
  }

  /** Two steps that keep payloads keep them together. */
  lemma SamePayloadsTrans(m: seq<byte>, m1: seq<byte>, m2: seq<byte>, b: Tiling, b1: Tiling, starts: set<int>)
    requires |m| == |m1| == |m2| == TWO_32 && Within(b) && Within(b1)
    requires SamePayloads(m, m1, b, starts) && SamePayloads(m1, m2, b1, starts)
    requires forall t :: t in starts && t in b ==> t in b1 && b1[t] >= b[t]
    ensures SamePayloads(m, m2, b, starts)
  {
  }

  // ---- reading the neighbours ----

  function Magic(h: Heap, s: int): uint32 {
    if s in h.data then HEAP_DATA_BLOCK_MAGIC else HEAP_VOID_BLOCK_MAGIC
  }

  /** The header of a tagged block tells its kind and size. */
  lemma BlockTags(m: seq<byte>, roots: seq<uint32>, h: Heap, s: int)
    requires Represents(m, roots, h) && s in h.size && (s in h.data || s in h.voids)
    ensures KHEAP_START <= s && s + SERVICE_FIELDS_SIZE <= End(h.size, s) <= KHEAP_END && HasBucket(h, s)
    ensures |h.lists| == HEAP_VOID_BUCKET_COUNT
    ensures Load(m, s) == Magic(h, s) && Load(m, s + 4) == h.size[s]
    ensures Load(m, End(h.size, s) - 4) == Magic(h, s) && Load(m, End(h.size, s) - 8) == h.size[s]
  {
    hide Load, Store;
    SizeIndexInRange(h.size[s]);
  }

  /** The two guard blocks of heap_init, in memory of any content. */
  lemma GuardsRepresents(m: seq<byte>, roots: seq<uint32>)
    requires |m| == TWO_32 && |roots| == HEAP_VOID_BUCKET_COUNT && forall i :: 0 <= i < |roots| ==> roots[i] == NULL
    ensures
      var m' := WriteTags(WriteTags(m, KHEAP_START, 0, HEAP_DATA_BLOCK_MAGIC), LAST_BLOCK, 0, HEAP_DATA_BLOCK_MAGIC);
      Represents(m', roots, GuardedHeap()) && Load(m', KHEAP_START + 4) == 0
  {
    hide Load, Store, WriteTags;
    BlankTiled();
    assert Represents(m, roots, BlankHeap());
    DataRepresents(m, roots, BlankHeap(), KHEAP_START);
    var m1 := WriteTags(m, KHEAP_START, 0, HEAP_DATA_BLOCK_MAGIC);
    DataRepresents(m1, roots, SetData(BlankHeap(), KHEAP_START), LAST_BLOCK);
    BlockTags(WriteTags(m1, LAST_BLOCK, 0, HEAP_DATA_BLOCK_MAGIC), roots, GuardedHeap(), KHEAP_START);
  }

  /** The k-th node of bucket list i and its right neighbour, as the scan reads them. */
  lemma ListNode(m: seq<byte>, roots: seq<uint32>, h: Heap, i: nat, k: nat)
    requires Represents(m, roots, h) && i < HEAP_VOID_BUCKET_COUNT && k < |h.lists[i]|
    ensures InBucket(h, h.lists[i][k], i) && 0 < h.lists[i][k] <= TWO_32 - LEFT_EDGE_SIZE
    ensures Load(m, h.lists[i][k] + 12) == Nth(h.lists[i], k + 1)
  {
    assert ListAt(m, roots[i], h.lists[i]) && NodeAt(m, h.lists[i], k);
  }

  /** The owner of a live block may write its payload: no tag and no link lies there. */
  lemma PayloadWritten(m: seq<byte>, m': seq<byte>, roots: seq<uint32>, h: Heap, s: int)
    requires Represents(m, roots, h) && |m'| == TWO_32 && s in h.data
    requires forall a :: 0 <= a < TWO_32 && m'[a] != m[a] ==> s + LEFT_EDGE_SIZE <= a < End(h.size, s) - RIGHT_EDGE_SIZE
    ensures Represents(m', roots, h) && SamePayloads(m, m', h.size, h.data - {s})
  {
    ForgetData(m, roots, h, s);
    var h' := h.(data := h.data - {s});
    RawRewritten(m, m', roots, h', s);
    var foot := s + LEFT_EDGE_SIZE + h.size[s];
    SameWord(m, m', s);
    SameWord(m, m', s + 4);
    SameWord(m, m', foot);
    SameWord(m, m', foot + 4);
    assert Listed(h);
  }

  /** malloc of c, memcpy from s to c, free of s: the bytes of s end up in c and all other payloads stay. */
  lemma MovedPayloads(m0: seq<byte>, m1: seq<byte>, m2: seq<byte>, m3: seq<byte>, h0: Heap, h1: Heap, s: int, c: int)
    requires |m0| == |m1| == |m2| == |m3| == TWO_32 && Within(h0.size) && Within(h1.size)
    requires s in h0.data && s in h0.size && c in h1.size && h1.size[c] >= h0.size[s] && c != s && c !in h0.data
    requires h1.data == h0.data + {c}
    requires forall t :: t in h0.data ==> t in h1.size && t in h0.size && h1.size[t] == h0.size[t]
    requires SamePayloads(m0, m1, h0.size, h0.data)
    requires SamePayloads(m1, m2, h1.size, h1.data - {c})
    requires forall a :: c + LEFT_EDGE_SIZE <= a < c + LEFT_EDGE_SIZE + h0.size[s] ==> m2[a] == m1[a - c + s]
    requires SamePayloads(m2, m3, h1.size, h1.data - {s})
    ensures SamePayloads(m0, m3, h0.size, h0.data - {s})
    ensures forall a :: c + LEFT_EDGE_SIZE <= a < c + LEFT_EDGE_SIZE + h0.size[s] ==> m3[a] == m0[a - c + s]
  {
  }
}
