/** What the heap operations guarantee together: invariants over every run, complete search, free undoing malloc. */
module HeapLaws {
  import opened Machine
  import opened HeapModel

  // ---- search ----

  lemma {:induction false} FirstFitIsFirst(b: Tiling, l: seq<int>, size: nat)
    requires forall k :: 0 <= k < |l| ==> l[k] in b
    ensures FirstFit(b, l, size) == Nothing ==> forall k :: 0 <= k < |l| ==> b[l[k]] < size
    ensures FirstFit(b, l, size).Found? ==>
      exists k :: 0 <= k < |l| && l[k] == FirstFit(b, l, size).start && b[l[k]] >= size
        && forall j :: 0 <= j < k ==> b[l[j]] < size
  {
    if l != [] && b[l[0]] < size {
      FirstFitIsFirst(b, l[1..], size);
      var r := FirstFit(b, l[1..], size);
      if r.Found? {
        var k :| 0 <= k < |l[1..]| && l[1..][k] == r.start && b[l[1..][k]] >= size
          && forall j :: 0 <= j < k ==> b[l[1..][j]] < size;
        assert l[k + 1] == r.start;
        assert forall j :: 0 < j < k + 1 ==> l[j] == l[1..][j - 1];
      }
    } else if l != [] {
      assert l[0] == FirstFit(b, l, size).start;
    }
  }

  lemma {:induction false} SearchUpComplete(h: Heap, size: nat, i: nat)
    requires Inv(h) && i <= HEAP_VOID_BUCKET_COUNT
    ensures SearchUp(h, size, i) == Nothing ==>
      forall s :: s in h.voids && SizeIndex(h.size[s]) >= i ==> h.size[s] < size
    ensures
      var r := SearchUp(h, size, i);
      r.Found? ==>
        && r.start in h.voids && h.size[r.start] >= size && SizeIndex(h.size[r.start]) >= i
        && forall s :: s in h.voids && i <= SizeIndex(h.size[s]) < SizeIndex(h.size[r.start]) ==> h.size[s] < size
    decreases HEAP_VOID_BUCKET_COUNT - i
  {
    if i == HEAP_VOID_BUCKET_COUNT {
      forall s | s in h.voids ensures SizeIndex(h.size[s]) < i {
        SizeIndexInRange(h.size[s]);
      }
    } else {
      var f := FirstFit(h.size, h.lists[i], size);
      FirstFitIsFirst(h.size, h.lists[i], size);
      if f.Found? {
        var k :| 0 <= k < |h.lists[i]| && h.lists[i][k] == f.start;
        assert InBucket(h, h.lists[i][k], i);
      } else {
        SearchUpComplete(h, size, i + 1);
        forall s | s in h.voids && SizeIndex(h.size[s]) == i ensures h.size[s] < size {
          assert InBucket(h, s, i);
          assert s in h.lists[i];
        }
      }
    }
  }

  /** malloc finds a void iff one of at least `size` bytes exists, and then one from the lowest bucket that has any.
      The fallback to the bucket below the size's own never contributes. */
  lemma ChooseComplete(h: Heap, size: nat)
    requires Inv(h) && size > 0
    ensures Choose(h, size).Found? <==> exists s :: s in h.voids && h.size[s] >= size
    ensures Choose(h, size).Found? ==>
      var s := Choose(h, size).start;
      && Carvable(h, s, size)
      && SizeIndex(size) < HEAP_VOID_BUCKET_COUNT && Choose(h, size) == SearchUp(h, size, SizeIndex(size))
      && forall t :: t in h.voids && h.size[t] >= size ==> SizeIndex(h.size[s]) <= SizeIndex(h.size[t])
  {
    hide SearchUp, FirstFit;
    forall s | s in h.voids && h.size[s] >= size
      ensures SizeIndex(size) <= SizeIndex(h.size[s]) < HEAP_VOID_BUCKET_COUNT
    {
      SizeIndexMonotone(size, h.size[s]);
      SizeIndexInRange(h.size[s]);
    }
    var i := SizeIndex(size);
    if i < HEAP_VOID_BUCKET_COUNT {
      SearchUpComplete(h, size, i);
      if i > 0 {
        FallbackFails(h, size);
      }
      var r := SearchUp(h, size, i);
      assert Choose(h, size) == r;
      if r.Found? {
        SizeIndexInRange(h.size[r.start]);
      }
    }
  }

  lemma FallbackFails(h: Heap, size: nat)
    requires Inv(h) && 0 < SizeIndex(size) <= HEAP_VOID_BUCKET_COUNT
    ensures FirstFit(h.size, h.lists[SizeIndex(size) - 1], size) == Nothing
  {
    var l := h.lists[SizeIndex(size) - 1];
    SizeIndexIsCeilLog2(size);
    forall k | 0 <= k < |l| ensures h.size[l[k]] < size {
      assert InBucket(h, l[k], SizeIndex(size) - 1);
      SizeIndexIsCeilLog2(h.size[l[k]]);
    }
    FirstFitIsFirst(h.size, l, size);
  }

  // ---- no more than needed ----

  /** Block s has `size` bytes, or takes the whole of the void v, which ends at e, where the rest of it is too small to
      be a void. Otherwise the rest is a void again, up to e. All other voids are as they were. */
  ghost predicate TakesFrom(h: Heap, h': Heap, s: int, size: nat, v: int, e: int) {
    && s in h'.size && size <= h'.size[s] <= size + SERVICE_FIELDS_SIZE
    && (End(h'.size, s) != e ==>
      && h'.size[s] == size && End(h'.size, s) in h'.voids && End(h'.size, s) in h'.size
      && End(h'.size, End(h'.size, s)) == e)
    && (forall t :: t in h.voids && t != v ==> t in h.size && t in h'.voids && t in h'.size && h'.size[t] == h.size[t])
    && (forall t :: t in h'.voids ==> (t in h.voids && t != v) || (t == End(h'.size, s) && t != e))
  }

  /** malloc leaves what it does not need of a void. */
  lemma CarveTakes(h: Heap, s: int, size: nat)
    requires Carvable(h, s, size)
    ensures TakesFrom(h, Carve(h, s, size), s, size, s, End(h.size, s))
  {
    hide Listed, Carve, Chained;
    if h.size[s] - size > SERVICE_FIELDS_SIZE {
      SplitTiled(h.size, s, s + SERVICE_FIELDS_SIZE + size);
    } else {
      MergedBeside(h, s);
    }
  }

  // ---- realloc in place ----

  lemma AbsorbKeys(b: Tiling, s: int)
    requires Tiled(b) && s in b && End(b, s) in b
    ensures
      var r := End(b, s);
      var b' := Join(b, s, End(b, r));
      && Tiled(b') && b'[s] == b[s] + SERVICE_FIELDS_SIZE + b[r]
      && (forall t :: t in b' <==> t in b && t != r)
      && (forall t :: t in b' && t != s ==> b'[t] == b[t])
  {
    NoneInside(b, s);
    NoneInside(b, End(b, s));
    JoinTiled(b, s, End(b, End(b, s)));
  }

  /** The block s with the void right of it absorbed. */
  lemma ExtendJoin(h: Heap, s: int, size: nat)
    requires Inv(h) && CanExtend(h, s, size)
    ensures HasBucket(h, End(h.size, s))
    ensures
      var r := End(h.size, s);
      var b := Join(h.size, s, End(h.size, r));
      Inv(Unlink(h, r).(size := b)) && End(b, s) !in h.voids
  {
    hide Join, Listed;
    var r := End(h.size, s);
    var e := End(h.size, r);
    var b := Join(h.size, s, e);
    AbsorbKeys(h.size, s);
    ExtendListed(h, r, b);
    assert e !in h.voids;
    assert End(b, s) == e;
    assert Merged(b, h.voids - {r}) by {
      forall t | t in b && t in h.voids ensures End(b, t) !in h.voids {
        assert End(b, t) == End(h.size, t);
      }
    }
  }

  lemma ExtendListed(h: Heap, r: int, b: Tiling)
    requires Tiled(h.size) && Listed(h) && r in h.voids && r in h.size
    requires forall t :: t in b <==> t in h.size && t != r
    requires forall t :: t in h.voids && t in b ==> b[t] == h.size[t]
    ensures HasBucket(h, r) && Listed(Unlink(h, r).(size := b))
  {
    SizeIndexInRange(h.size[r]);
    UnlinkKeeps(h, r);
    ResizeListed(Unlink(h, r), b);
  }

  /** Growing in place keeps the invariant and every other live block, and gives the block at least `size` bytes. */
  lemma ExtendKeeps(h: Heap, s: int, size: nat)
    requires Inv(h) && CanExtend(h, s, size)
    ensures Inv(Extend(h, s, size)) && Extend(h, s, size).size[s] >= size
    ensures forall t :: Live(Extend(h, s, size), t) <==> Live(h, t)
    ensures forall t :: Live(h, t) && t != s ==> Extend(h, s, size).size[t] == h.size[t]
  {
    hide Listed, Merged, Chained, Disjoint, Join;
    ExtendJoin(h, s, size);
    AbsorbKeys(h.size, s);
    var r := End(h.size, s);
    if h.size[r] + h.size[s] > size {
      ExtendSplit(Unlink(h, r).(size := Join(h.size, s, End(h.size, r))), s, s + SERVICE_FIELDS_SIZE + size);
    }
  }

  /** realloc in place leaves what it does not need of the void behind the block. */
  lemma ExtendTakes(h: Heap, s: int, size: nat)
    requires Inv(h) && CanExtend(h, s, size)
    ensures TakesFrom(h, Extend(h, s, size), s, size, End(h.size, s), End(h.size, End(h.size, s)))
  {
    hide Listed, Join, Chained;
    var r := End(h.size, s);
    var b := Join(h.size, s, End(h.size, r));
    ExtendJoin(h, s, size);
    AbsorbKeys(h.size, s);
    if h.size[r] + h.size[s] > size {
      SplitTiled(b, s, s + SERVICE_FIELDS_SIZE + size);
    } else {
      MergedBeside(h, r);
    }
  }

  lemma ExtendSplit(h: Heap, s: int, c: int)
    requires Inv(h) && s in h.data && s != LAST_BLOCK
    requires s + SERVICE_FIELDS_SIZE < c < End(h.size, s) - SERVICE_FIELDS_SIZE
    requires End(h.size, s) !in h.voids
    ensures SizeIndex(End(h.size, s) - c - SERVICE_FIELDS_SIZE) < HEAP_VOID_BUCKET_COUNT
    ensures Inv(Link(h.(size := Split(h.size, s, c)), c))
  {
    var b := Split(h.size, s, c);
    SplitTiled(h.size, s, c);
    SizeIndexInRange(End(h.size, s) - c - SERVICE_FIELDS_SIZE);
    ResizeListed(h, b);
    LinkKeeps(h.(size := b), c);
    forall t | t in b && t in h.voids ensures End(b, t) !in h.voids && End(b, t) != c {
      assert End(b, t) == End(h.size, t);
    }
  }

  // ---- alligned_malloc ----

  /** What malloc returns never has a void on its left, so alligned_malloc's own check cannot fail. */
  lemma LeftOfAllocation(h: Heap, s: int, size: nat)
    requires Carvable(h, s, size)
    ensures Inv(Carve(h, s, size)) && Live(Carve(h, s, size), s)
    ensures Left(Carve(h, s, size).size, s) !in Carve(h, s, size).voids
  {
    CarveKeeps(h, s, size);
    var b, l := Carve(h, s, size).size, Left(h.size, s);
    assert End(h.size, l) == s;
    assert l !in h.voids;
    assert l in b && b[l] == h.size[l];
    assert End(b, l) == s;
    assert l == Left(b, s);
  }

  /** The gap below the aligned start either joins the left neighbour or becomes a void: no byte is lost, the block
      on the left may only grow, and every other live block stays as it is. */
  lemma AlignKeeps(h: Heap, s: int, c: int)
    requires Inv(h) && Live(h, s) && Left(h.size, s) !in h.voids && s <= c < End(h.size, s) - SERVICE_FIELDS_SIZE
    ensures Inv(Align(h, s, c))
    ensures Live(Align(h, s, c), c) && End(Align(h, s, c).size, c) == End(h.size, s)
    ensures forall t :: t != c ==> (Live(Align(h, s, c), t) <==> Live(h, t) && t != s)
    ensures forall t :: Live(h, t) && t != s ==>
      Align(h, s, c).size[t] == h.size[t] + if t == Left(h.size, s) && c - s <= SERVICE_FIELDS_SIZE then c - s else 0
  {
    if c - s <= SERVICE_FIELDS_SIZE {
      AlignFold(h, s, c);
    } else {
      AlignSplit(h, s, c);
    }
  }

  /** The gap is the only void that comes, and it ends where the aligned block begins; none goes. */
  lemma AlignVoids(h: Heap, s: int, c: int)
    requires Inv(h) && Live(h, s) && Left(h.size, s) !in h.voids && s <= c < End(h.size, s) - SERVICE_FIELDS_SIZE
    ensures
      var h' := Align(h, s, c);
      && (forall t :: t in h'.voids <==> t in h.voids || (t == s && c - s > SERVICE_FIELDS_SIZE))
      && (forall t :: t in h.voids ==> t in h.size && t in h'.size && h'.size[t] == h.size[t])
      && (c - s > SERVICE_FIELDS_SIZE ==> s in h'.size && End(h'.size, s) == c)
  {
    hide Listed, Fold;
    if c - s <= SERVICE_FIELDS_SIZE {
      AlignFold(h, s, c);
    } else {
      AlignSplit(h, s, c);
    }
  }

  lemma FoldKeepsTiling(b: Tiling, p: int, s: int, c: int)
    requires Tiled(b) && s in b && p in b && End(b, p) == s && s <= c <= End(b, s) - SERVICE_FIELDS_SIZE
    ensures Tiled(Fold(b, p, s, c))
  {
    JoinTiled(b, p, End(b, s));
    hide Chained, Disjoint, Join, Split;
    SplitTiled(Join(b, p, End(b, s)), p, c);
  }

  lemma FoldKeys(b: Tiling, p: int, s: int, c: int)
    requires Tiled(b) && s in b && p in b && End(b, p) == s && s <= c <= End(b, s) - SERVICE_FIELDS_SIZE
    ensures
      var b' := Fold(b, p, s, c);
      && (c == s || c !in b) && p in b' && c in b' && b'[p] == b[p] + c - s
      && b'[c] == End(b, s) - c - SERVICE_FIELDS_SIZE
      && (forall t :: t in b' <==> (t in b && t != s) || t == c)
      && (forall t :: t in b' && t != p && t != c ==> b'[t] == b[t])
  {
    hide Chained, Disjoint, Within;
    NoneInside(b, p);
    NoneInside(b, s);
  }

  lemma FoldTiled(b: Tiling, p: int, s: int, c: int)
    requires Tiled(b) && s in b && p in b && End(b, p) == s && s <= c <= End(b, s) - SERVICE_FIELDS_SIZE
    ensures
      var b' := Fold(b, p, s, c);
      && (c == s || c !in b) && Tiled(b') && b'[p] == b[p] + c - s && b'[c] == End(b, s) - c - SERVICE_FIELDS_SIZE
      && (forall t :: t in b' <==> (t in b && t != s) || t == c)
      && (forall t :: t in b' && t != p && t != c ==> b'[t] == b[t])
  {
    hide Chained, Disjoint, Fold;
    FoldKeys(b, p, s, c);
    FoldKeepsTiling(b, p, s, c);
  }

  lemma AlignFold(h: Heap, s: int, c: int)
    requires Inv(h) && Live(h, s) && s <= c < End(h.size, s) - SERVICE_FIELDS_SIZE && c - s <= SERVICE_FIELDS_SIZE
    requires Left(h.size, s) !in h.voids
    ensures Inv(Align(h, s, c))
    ensures
      var p, b := Left(h.size, s), Align(h, s, c).size;
      && c in b && b[c] == End(h.size, s) - c - SERVICE_FIELDS_SIZE && p in b && b[p] == h.size[p] + c - s
      && (forall t :: t in b <==> (t in h.size && t != s) || t == c)
      && (forall t :: t in b && t != p && t != c ==> b[t] == h.size[t])
  {
    hide Listed, Fold, Merged, Chained, Disjoint;
    var p, b := Left(h.size, s), Align(h, s, c).size;
    FoldTiled(h.size, p, s, c);
    AlignListed(h, s, c, b);
    FoldMerged(h.size, h.voids, p, s, c);
    FoldSettled(h, p, s, c, b);
  }

  lemma FoldMerged(b: Tiling, voids: set<int>, p: int, s: int, c: int)
    requires Tiled(b) && s in b && p in b && End(b, p) == s && s <= c <= End(b, s) - SERVICE_FIELDS_SIZE
    requires Merged(b, voids) && voids <= b.Keys && p !in voids && s !in voids
    ensures Merged(Fold(b, p, s, c), voids)
  {
    hide Fold;
    FoldTiled(b, p, s, c);
    var b' := Fold(b, p, s, c);
    forall t | t in b' && t in voids ensures End(b', t) !in voids {
      assert End(b', t) == End(b, t);
    }
  }

  lemma FoldSettled(h: Heap, p: int, s: int, c: int, b: Tiling)
    requires Settled(h) && s in h.data && p in h.size && p in b && b[p] >= h.size[p] && p != c
    requires c in b && b[c] > 0 && (c == s || c !in h.size)
    requires forall t :: t in b <==> (t in h.size && t != s) || t == c
    requires forall t :: t in b && t != p && t != c ==> b[t] == h.size[t]
    ensures Settled(h.(data := h.data - {s} + {c}, size := b))
  {
    forall t ensures t in b.Keys <==> t in h.data - {s} + {c} + h.voids {
      assert t in h.size.Keys <==> t in h.data + h.voids;
    }
  }

  lemma AlignListed(h: Heap, s: int, c: int, b: Tiling)
    requires Inv(h) && Live(h, s)
    requires forall t :: t in h.voids ==> t in b && b[t] == h.size[t]
    ensures Listed(h.(data := h.data - {s} + {c}, size := b))
  {
    ResizeListed(h, b);
    assert Listed(h.(size := b));
  }

  lemma AlignSplit(h: Heap, s: int, c: int)
    requires Inv(h) && Live(h, s) && c < End(h.size, s) - SERVICE_FIELDS_SIZE && c - s > SERVICE_FIELDS_SIZE
    requires Left(h.size, s) !in h.voids
    ensures Inv(Align(h, s, c)) && Align(h, s, c).size == Split(h.size, s, c)
  {
    hide Listed, Merged, SizeIndex;
    var b := Split(h.size, s, c);
    SplitTiled(h.size, s, c);
    AlignListed(h, s, c, b);
    AlignSplitMerged(h.size, h.voids, Left(h.size, s), s, c);
    SizeIndexInRange(c - s - SERVICE_FIELDS_SIZE);
    LinkKeeps(h.(data := h.data - {s} + {c}, size := b), s);
  }

  lemma AlignSplitMerged(b: Tiling, voids: set<int>, l: int, s: int, c: int)
    requires Tiled(b) && s in b && l in b && End(b, l) == s
    requires s + SERVICE_FIELDS_SIZE <= c <= End(b, s) - SERVICE_FIELDS_SIZE
    requires Merged(b, voids) && voids <= b.Keys && l !in voids && s !in voids
    ensures Merged(Split(b, s, c), voids + {s})
  {
    SplitTiled(b, s, c);
    var b' := Split(b, s, c);
    forall t | t in b' && t in voids ensures End(b', t) !in voids && End(b', t) != s {
      assert End(b', t) == End(b, t);
    }
  }

  // ---- free against malloc ----

  lemma JoinUndoesSplit(b: Tiling, s: int, c: int)
    requires Tiled(b) && s in b
    ensures Join(b, s, End(b, s)) == b
    ensures s + SERVICE_FIELDS_SIZE <= c <= End(b, s) - SERVICE_FIELDS_SIZE ==>
      c !in b && End(Split(b, s, c), s) == c && End(Split(b, s, c), c) == End(b, s)
        && Join(Split(b, s, c), s, End(b, s)) == b
  {
    NoneInside(b, s);
  }

  lemma MergedBeside(h: Heap, s: int)
    requires Inv(h) && s in h.voids
    ensures End(h.size, s) !in h.voids
  {
  }

  /** Around a fresh allocation, what free would merge is exactly the void it came from. */
  lemma CarvedEnds(h: Heap, s: int, size: nat)
    requires Carvable(h, s, size)
    ensures
      var h1 := Carve(h, s, size);
      && Inv(h1) && Live(h1, s) && End(h1.size, s) in h1.size
      && MergeStart(h1, s) == s && MergeEnd(h1, s) == End(h.size, s)
      && Join(h1.size, s, End(h.size, s)) == h.size
  {
    hide Listed, Carve, Join, Split, Within, Chained, Disjoint, Merged;
    LeftOfAllocation(h, s, size);
    ReleaseMergeable(Carve(h, s, size), s);
    MergedBeside(h, s);
    JoinUndoesSplit(h.size, s, s + SERVICE_FIELDS_SIZE + size);
  }

  /** free undoes malloc: the same tiling, the same data blocks and the same voids. */
  lemma ReleaseUndoesCarve(h: Heap, s: int, size: nat)
    requires Carvable(h, s, size)
    ensures Inv(Carve(h, s, size)) && Live(Carve(h, s, size), s)
    ensures
      var h' := Release(Carve(h, s, size), s);
      h'.size == h.size && h'.data == h.data && h'.voids == h.voids
  {
    hide Listed, Merged, Release, Carve, Join, Split, Tiled;
    CarvedEnds(h, s, size);
    ReleaseStructure(Carve(h, s, size), s);
    JoinUndoesSplit(h.size, s, s + SERVICE_FIELDS_SIZE + size);
  }
}
