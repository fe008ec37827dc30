/**
 * Two-level page dictionaries over reference-counted frames. All live dictionaries together are one ghost map from
 * dictionary to its flat page map; the counters of the frame manager always equal the number of pages naming a frame.
 */
module Paging {
  import opened Machine
  import opened Frames

  const ENTRIES: nat := 1024
  const PAGES: nat := 0x10_0000
  const PAGE_PRESENT: nat := 1
  const PAGE_RW: nat := 2

  // ---- entries ----

  /** A directory entry: absent, or its flag bits and the table it leads to. */
  datatype Entry = Absent | Table(flags: uint32, ptes: seq<uint32>)

  predicate Present(pte: uint32) {
    pte % 2 == 1
  }

  /** `frame | flags | bits`. */
  function PteWord(frame: uint32, flags: uint32, bits: uint32): nat {
    Or(Or(frame, flags), bits)
  }

  lemma {:induction false} OrBelow(b: nat, c: nat, k: nat)
    requires b < Pow2(k) && c < Pow2(k)
    ensures Or(b, c) < Pow2(k)
  {
    hide Or;
    OrStep(b, c);
    if k > 0 {
      OrBelow(b / 2, c / 2, k - 1);
    } else {
      OrStep(0, 0);
    }
  }

  lemma {:induction false} OrLow(a: nat, b: nat, c: nat, k: nat)
    requires b < Pow2(k) && c < Pow2(k)
    ensures Or(a * Pow2(k) + b, c) == a * Pow2(k) + Or(b, c)
  {
    if k > 0 {
      OrLow(a, b / 2, c / 2, k - 1);
      OrLowStep(a, Pow2(k - 1), b, c);
    }
  }

  lemma OrLowStep(a: nat, p: nat, b: nat, c: nat)
    requires Or(a * p + b / 2, c / 2) == a * p + Or(b / 2, c / 2)
    ensures Or(a * (2 * p) + b, c) == a * (2 * p) + Or(b, c)
  {
    hide Or;
    var q := a * p;
    assert a * (2 * p) == 2 * q;
    OrStep(2 * q + b, c);
    OrStep(b, c);
  }

  lemma OrStep(x: nat, y: nat)
    ensures Or(x, y) == 2 * Or(x / 2, y / 2) + if x % 2 == 1 || y % 2 == 1 then 1 else 0
  {
  }

  lemma PageShift()
    ensures Pow2(12) == PAGE_SIZE
  {
    Pow2Sum(6, 6);
  }

  lemma PteWordSum(a: nat, flags: uint32, bits: uint32)
    requires flags < PAGE_SIZE && bits < PAGE_SIZE
    ensures Or(flags, bits) < PAGE_SIZE
    ensures Or(Or(a * PAGE_SIZE, flags), bits) == a * PAGE_SIZE + Or(flags, bits)
  {
    assert Or(0, flags) == flags;
    hide Or, Pow2;
    PageShift();
    OrLow(a, 0, flags, 12);
    OrLow(a, flags, bits, 12);
    OrBelow(flags, bits, 12);
  }

  /** Flag bits below 4096 keep out of the frame address, and the present bit is set. */
  lemma PteWordParts(frame: uint32, flags: uint32, bits: uint32)
    requires frame % PAGE_SIZE == 0 && flags < PAGE_SIZE && bits < PAGE_SIZE && bits % 2 == 1
    ensures PteWord(frame, flags, bits) < TWO_32 && Present(PteWord(frame, flags, bits))
    ensures PteWord(frame, flags, bits) / PAGE_SIZE == frame / PAGE_SIZE
    ensures PteWord(frame, flags, bits) % PAGE_SIZE == Or(flags, bits)
  {
    hide Or;
    PteWordSum(frame / PAGE_SIZE, flags, bits);
    OrStep(flags, bits);
    WordParts(frame, Or(flags, bits));
  }

  lemma WordParts(frame: uint32, low: nat)
    requires frame % PAGE_SIZE == 0 && low < PAGE_SIZE
    ensures
      var w := frame / PAGE_SIZE * PAGE_SIZE + low;
      w < TWO_32 && w / PAGE_SIZE == frame / PAGE_SIZE && w % PAGE_SIZE == low && w % 2 == low % 2
  {
    var a := frame / PAGE_SIZE;
    RemainderUnique(a * PAGE_SIZE + low, PAGE_SIZE, a, low);
    RemainderUnique(a * PAGE_SIZE + low, 2, a * (PAGE_SIZE / 2) + low / 2, low % 2);
  }

  // ---- flat view ----

  /** Present pages of an address space and the frame each is mapped to. */
  type Flat = map<int, int>

  function PteAt(dir: seq<Entry>, page: nat): uint32
    requires |dir| == ENTRIES && page < PAGES
  {
    match dir[page / ENTRIES]
    case Absent => 0
    case Table(_, ptes) => if page % ENTRIES < |ptes| then ptes[page % ENTRIES] else 0
  }

  ghost predicate Shows(dir: seq<Entry>, flat: Flat) {
    && |dir| == ENTRIES
    && (forall i :: 0 <= i < ENTRIES && dir[i].Table? ==> |dir[i].ptes| == ENTRIES)
    && (forall page :: page in flat ==> 0 <= page < PAGES)
    && (forall page :: 0 <= page < PAGES ==>
      (page in flat <==> Present(PteAt(dir, page))) && (page in flat ==> PteAt(dir, page) / PAGE_SIZE == flat[page]))
  }

  lemma ShowsPage(dir: seq<Entry>, flat: Flat, page: nat)
    requires Shows(dir, flat) && page < PAGES
    ensures |dir| == ENTRIES
    ensures dir[page / ENTRIES].Table? ==> |dir[page / ENTRIES].ptes| == ENTRIES
    ensures page in flat <==> Present(PteAt(dir, page))
    ensures page in flat ==> flat[page] == PteAt(dir, page) / PAGE_SIZE
  {
  }

  /** The entry of one page has been written, and nothing else in the tables or in the directory. */
  ghost predicate PteWritten(dir: seq<Entry>, dir': seq<Entry>, page: nat, pte: uint32) {
    && |dir| == |dir'| == ENTRIES
    && (forall p :: 0 <= p < PAGES ==> PteAt(dir', p) == if p == page then pte else PteAt(dir, p))
    && (forall i :: 0 <= i < ENTRIES ==>
      dir[i].Table? == dir'[i].Table? && (dir[i].Table? ==> dir'[i].flags == dir[i].flags))
  }

  /** Tables stay, and a new one has the given flags, the present bit and the write bit. */
  ghost predicate TableKept(e: Entry, e': Entry, flags: uint32) {
    if e.Absent? then e'.Absent? || e'.flags == Or(flags, PAGE_PRESENT + PAGE_RW) else e'.Table? && e'.flags == e.flags
  }

  /** Pages [lo, hi) have been entered with the given flags and the bits `low`; all other entries are as they were. */
  ghost predicate Entered(dir: seq<Entry>, dir': seq<Entry>, lo: int, hi: int, flags: uint32, low: uint32) {
    && |dir| == |dir'| == ENTRIES
    && (forall p :: 0 <= p < PAGES && lo <= p < hi ==> PteAt(dir', p) % PAGE_SIZE == Or(flags, low))
    && (forall p :: 0 <= p < PAGES && !(lo <= p < hi) ==> PteAt(dir', p) == PteAt(dir, p))
    && (forall i :: 0 <= i < ENTRIES ==> TableKept(dir[i], dir'[i], flags))
  }

  lemma EnteredNone(dir: seq<Entry>, lo: int, flags: uint32, low: uint32)
    requires |dir| == ENTRIES
    ensures Entered(dir, dir, lo, lo, flags, low)
  {
  }

  lemma EnteredNext(dir0: seq<Entry>, dir: seq<Entry>, dir': seq<Entry>, lo: int, k: int, flags: uint32, low: uint32)
    requires lo <= k && Entered(dir0, dir, lo, k, flags, low) && Entered(dir, dir', k, k + 1, flags, low)
    ensures Entered(dir0, dir', lo, k + 1, flags, low)
  {
    hide PteAt;
  }

  /** A page's entry written into a table that may be new. */
  lemma EnteredOne(dir0: seq<Entry>, dir: seq<Entry>, dir': seq<Entry>, page: nat, pte: uint32, flags: uint32,
    low: uint32)
    requires Entered(dir0, dir, page, page, flags, low) && PteWritten(dir, dir', page, pte)
    requires pte % PAGE_SIZE == Or(flags, low)
    ensures Entered(dir0, dir', page, page + 1, flags, low)
  {
    hide PteAt, Or;
  }

  /** Those of pages [lo, hi) that were present have been cleared; all other entries and the directory are as they
      were. */
  ghost predicate Cleared(dir: seq<Entry>, dir': seq<Entry>, lo: int, hi: int) {
    && |dir| == |dir'| == ENTRIES
    && (forall p :: 0 <= p < PAGES ==>
      PteAt(dir', p) == if lo <= p < hi && Present(PteAt(dir, p)) then 0 else PteAt(dir, p))
    && (forall i :: 0 <= i < ENTRIES ==>
      dir[i].Table? == dir'[i].Table? && (dir[i].Table? ==> dir'[i].flags == dir[i].flags))
  }

  lemma ClearedNone(dir: seq<Entry>, lo: int)
    requires |dir| == ENTRIES
    ensures Cleared(dir, dir, lo, lo)
  {
  }

  lemma ClearedNext(dir0: seq<Entry>, dir: seq<Entry>, dir': seq<Entry>, lo: int, k: int)
    requires lo <= k && Cleared(dir0, dir, lo, k) && Cleared(dir, dir', k, k + 1)
    ensures Cleared(dir0, dir', lo, k + 1)
  {
    hide PteAt;
  }

  lemma ClearedTables(dir: seq<Entry>, dir': seq<Entry>, lo: int, hi: int, i: nat)
    requires Cleared(dir, dir', lo, hi) && i < ENTRIES
    ensures |dir| == |dir'| == ENTRIES && dir'[i].Table? == dir[i].Table?
  {
  }

  lemma ClearedOne(dir: seq<Entry>, dir': seq<Entry>, page: nat)
    requires page < PAGES && PteWritten(dir, dir', page, 0) && Present(PteAt(dir, page))
    ensures Cleared(dir, dir', page, page + 1)
  {
    hide PteAt;
  }

  lemma ClearedAbsent(dir: seq<Entry>, page: nat)
    requires |dir| == ENTRIES && page < PAGES && !Present(PteAt(dir, page))
    ensures Cleared(dir, dir, page, page + 1)
  {
    hide PteAt;
  }

  /** Writing one entry of an existing table is an update of the flat map. */
  lemma EntryWritten(dir: seq<Entry>, flat: Flat, page: nat, pte: uint32)
    requires Shows(dir, flat) && page < PAGES && dir[page / ENTRIES].Table?
    ensures
      var e := dir[page / ENTRIES];
      var dir' := dir[page / ENTRIES := e.(ptes := e.ptes[page % ENTRIES := pte])];
      && Shows(dir', if Present(pte) then flat[page := pte / PAGE_SIZE] else flat - {page})
      && PteWritten(dir, dir', page, pte)
  {
    var e := dir[page / ENTRIES];
    var dir' := dir[page / ENTRIES := e.(ptes := e.ptes[page % ENTRIES := pte])];
    forall p: nat | p < PAGES ensures PteAt(dir', p) == if p == page then pte else PteAt(dir, p) {
      assert p / ENTRIES == page / ENTRIES && p % ENTRIES == page % ENTRIES ==> p == page;
    }
  }

  /** A new table of zeros maps nothing. */
  lemma TableCreated(dir: seq<Entry>, flat: Flat, i: nat, flags: uint32)
    requires Shows(dir, flat) && i < ENTRIES && dir[i].Absent?
    ensures Shows(dir[i := Table(flags, seq(ENTRIES, _ => 0))], flat)
    ensures forall p :: 0 <= p < PAGES ==> PteAt(dir[i := Table(flags, seq(ENTRIES, _ => 0))], p) == PteAt(dir, p)
  {
    var dir' := dir[i := Table(flags, seq(ENTRIES, _ => 0))];
    forall p: nat | p < PAGES ensures PteAt(dir', p) == PteAt(dir, p) {
    }
  }

  // ---- reference counts ----

  class PageDict {
    const dir: array<Entry>

    constructor ()
      ensures fresh(dir) && Shows(dir[..], map[])
    {
      dir := new Entry[ENTRIES](_ => Absent);
    }
  }

  type Spaces = map<PageDict, Flat>

  /** The pages, over all dictionaries, that name frame f. */
  ghost function Holders(spaces: Spaces, f: int): set<(PageDict, int)> {
    set pd, page | pd in spaces && page in spaces[pd] && spaces[pd][page] == f :: (pd, page)
  }

  /** Only frames below `n` are named. */
  ghost predicate NamedBelow(spaces: Spaces, n: nat) {
    forall pd, page :: pd in spaces && page in spaces[pd] ==> 0 <= spaces[pd][page] < n
  }

  /** Every counter is the number of present entries naming its frame, and only existing frames are named. */
  ghost predicate Counted(count: seq<nat>, spaces: Spaces) {
    && (forall f :: 0 <= f < |count| ==> count[f] == |Holders(spaces, f)|)
    && NamedBelow(spaces, |count|)
  }

  lemma HolderJoins(spaces: Spaces, pd: PageDict, page: int, f: int, g: int)
    requires pd in spaces && page !in spaces[pd]
    ensures
      Holders(spaces[pd := spaces[pd][page := f]], g) == Holders(spaces, g) + if g == f then {(pd, page)} else {}
    ensures (pd, page) !in Holders(spaces, g)
  {
  }

  lemma HolderLeaves(spaces: Spaces, pd: PageDict, page: int, g: int)
    requires pd in spaces && page in spaces[pd]
    ensures Holders(spaces[pd := spaces[pd] - {page}], g) == Holders(spaces, g) - {(pd, page)}
    ensures (pd, page) in Holders(spaces, g) <==> spaces[pd][page] == g
  {
  }

  lemma CountedMap(count: seq<nat>, spaces: Spaces, pd: PageDict, page: int, f: int)
    requires Counted(count, spaces) && pd in spaces && page !in spaces[pd] && 0 <= f < |count|
    ensures Counted(count[f := count[f] + 1], spaces[pd := spaces[pd][page := f]])
  {
    hide Holders;
    forall g | 0 <= g < |count|
      ensures |Holders(spaces[pd := spaces[pd][page := f]], g)| == count[g] + if g == f then 1 else 0
    {
      HolderJoins(spaces, pd, page, f, g);
    }
    assert NamedBelow(spaces[pd := spaces[pd][page := f]], |count|);
  }

  lemma CountedUnmap(count: seq<nat>, spaces: Spaces, pd: PageDict, page: int)
    requires Counted(count, spaces) && pd in spaces && page in spaces[pd]
    ensures 0 <= spaces[pd][page] < |count| && count[spaces[pd][page]] == |Holders(spaces, spaces[pd][page])| > 0
    ensures
      var f := spaces[pd][page];
      Counted(count[f := count[f] - 1], spaces[pd := spaces[pd] - {page}])
  {
    hide Holders;
    var f := spaces[pd][page];
    assert NamedBelow(spaces, |count|);
    HolderLeaves(spaces, pd, page, f);
    forall g | 0 <= g < |count|
      ensures |Holders(spaces[pd := spaces[pd] - {page}], g)| == count[g] - if g == f then 1 else 0
    {
      HolderLeaves(spaces, pd, page, g);
    }
    assert NamedBelow(spaces[pd := spaces[pd] - {page}], |count|);
  }

  lemma CountedDrop(count: seq<nat>, spaces: Spaces, pd: PageDict)
    requires Counted(count, spaces) && pd in spaces && spaces[pd] == map[]
    ensures Counted(count, spaces - {pd})
  {
    forall f ensures Holders(spaces - {pd}, f) == Holders(spaces, f) {
    }
  }

  lemma CountedNew(count: seq<nat>, spaces: Spaces, pd: PageDict)
    requires Counted(count, spaces) && pd !in spaces
    ensures Counted(count, spaces[pd := map[]])
  {
    forall f ensures Holders(spaces[pd := map[]], f) == Holders(spaces, f) {
    }
  }

  /** Mapping over a present page does not release the frame it named, so a mapping keeps the counters right exactly
      when the page was absent -- even if it names the same frame again. */
  lemma MapOverPresentLeaks(count: seq<nat>, spaces: Spaces, pd: PageDict, page: int, f: int)
    requires Counted(count, spaces) && pd in spaces && 0 <= f < |count|
    ensures Counted(count[f := count[f] + 1], spaces[pd := spaces[pd][page := f]]) <==> page !in spaces[pd]
  {
    if page !in spaces[pd] {
      CountedMap(count, spaces, pd, page, f);
    } else {
      var g := spaces[pd][page];
      var spaces' := spaces[pd := spaces[pd][page := f]];
      assert (pd, page) in Holders(spaces, g);
      if g == f {
        assert Holders(spaces', g) == Holders(spaces, g);
      } else {
        assert Holders(spaces', g) == Holders(spaces, g) - {(pd, page)};
      }
    }
  }

  /** The counters are determined by what is mapped; so whatever leads back to the same mappings leads back to them. */
  lemma CountsDetermined(count: seq<nat>, count': seq<nat>, spaces: Spaces)
    requires Counted(count, spaces) && Counted(count', spaces) && |count| == |count'|
    ensures count == count'
  {
    forall f | 0 <= f < |count| ensures count[f] == count'[f] {
      assert count[f] == |Holders(spaces, f)|;
    }
  }

  // ---- frames that stay in use ----

  /** Every kernel frame that pages [lo, k) of `flat` name is named in the given spaces. */
  ghost predicate StillHeld(spaces: Spaces, flat: Flat, lo: int, k: int) {
    forall p :: p in flat && lo <= p < k && flat[p] < FIRST_USER_FRAME ==> Holders(spaces, flat[p]) != {}
  }

  /** A page that is not in `rest` is not the only one to name a frame that `rest` names. */
  lemma TwoHolders(spaces: Spaces, rest: Spaces, pd: PageDict, page: int)
    requires pd in spaces && page in spaces[pd] && Holders(rest, spaces[pd][page]) != {}
    requires Holders(rest, spaces[pd][page]) <= Holders(spaces, spaces[pd][page])
    requires (pd, page) !in Holders(rest, spaces[pd][page])
    ensures |Holders(spaces, spaces[pd][page])| > 1
  {
    var f := spaces[pd][page];
    var other :| other in Holders(rest, f);
    assert {other, (pd, page)} <= Holders(spaces, f);
    SubsetSize({other, (pd, page)}, Holders(spaces, f));
  }

  lemma SubsetSize(a: set<(PageDict, int)>, b: set<(PageDict, int)>)
    requires a <= b
    ensures |a| <= |b|
  {
    assert b == a + (b - a);
  }

  /** Unmapping a page whose frame is a user's or has another page keeps every kernel frame in use. */
  lemma StillHeldStep(spaces: Spaces, pd: PageDict, page: int, flat: Flat, lo: int)
    requires pd in spaces && page in spaces[pd] && page in flat && flat[page] == spaces[pd][page]
    requires |Holders(spaces, flat[page])| > 1 || flat[page] >= FIRST_USER_FRAME
    requires StillHeld(spaces, flat, lo, page)
    ensures StillHeld(spaces[pd := spaces[pd] - {page}], flat, lo, page + 1)
  {
    var spaces' := spaces[pd := spaces[pd] - {page}];
    forall p | p in flat && lo <= p < page + 1 && flat[p] < FIRST_USER_FRAME ensures Holders(spaces', flat[p]) != {} {
      HolderLeaves(spaces, pd, page, flat[p]);
      if flat[p] == flat[page] {
        assert |Holders(spaces', flat[p])| >= 1;
      }
    }
  }

  // ---- translation ----

  datatype Phys = Fault | At(addr: int)

  /** page_dict_vaddr_to_phys; Fault stands for its failed assertions. */
  function Translate(dir: seq<Entry>, va: uint32): Phys
    requires |dir| == ENTRIES
  {
    var pte := PteAt(dir, va / PAGE_SIZE);
    if Present(pte) then At(pte - pte % PAGE_SIZE + va % PAGE_SIZE) else Fault
  }

  lemma TranslateFlat(dir: seq<Entry>, flat: Flat, va: uint32)
    requires Shows(dir, flat)
    ensures Translate(dir, va) ==
      if va / PAGE_SIZE in flat then At(flat[va / PAGE_SIZE] * PAGE_SIZE + va % PAGE_SIZE) else Fault
  {
  }

  /** The pages that cover [start, start + size). */
  function PageCount(start: uint32, size: uint32): nat {
    (start % PAGE_SIZE + size + PAGE_SIZE - 1) / PAGE_SIZE
  }

  /** No sum of the interval functions wraps around 2^32. */
  predicate Mappable(start: uint32, size: uint32) {
    start + size <= TWO_32 && start % PAGE_SIZE + size + PAGE_SIZE - 1 < TWO_32
  }

  lemma CoveringPages(start: uint32, size: uint32)
    requires Mappable(start, size)
    ensures start / PAGE_SIZE + PageCount(start, size) <= PAGES
    ensures forall a {:trigger a / PAGE_SIZE} :: start <= a < start + size ==>
      start / PAGE_SIZE <= a / PAGE_SIZE < start / PAGE_SIZE + PageCount(start, size)
    ensures size > 0 ==>
      PageCount(start, size) > 0 && (start + size - 1) / PAGE_SIZE == start / PAGE_SIZE + PageCount(start, size) - 1
  {
  }

  class AddressSpaces {
    const pmm: FrameManager
    ghost var spaces: Spaces

    /** Every dictionary shows its flat map; the counters may be wrong. */
    ghost predicate Mapped()
      reads this, pmm, pmm.bitmap, pmm.bitmap.buff, pmm.count, set pd | pd in spaces :: pd.dir
    {
      && pmm.Valid() && Separate()
      && forall pd :: pd in spaces ==> Shows(pd.dir[..], spaces[pd])
    }

    ghost predicate Valid()
      reads this, pmm, pmm.bitmap, pmm.bitmap.buff, pmm.count, set pd | pd in spaces :: pd.dir
    {
      Mapped() && Counted(pmm.count[..], spaces)
    }

    ghost predicate Separate()
      reads this, pmm, pmm.bitmap
    {
      && (forall pd :: pd in spaces ==> (pd.dir as object) != pmm.bitmap.buff && (pd.dir as object) != pmm.count)
      && (forall pd, pd' :: pd in spaces && pd' in spaces && pd != pd' ==> pd.dir != pd'.dir)
    }

    constructor (pmm: FrameManager)
      requires pmm.Valid() && forall f :: 0 <= f < pmm.count.Length ==> pmm.count[f] == 0
      ensures this.pmm == pmm && Valid() && spaces == map[]
    {
      this.pmm := pmm;
      spaces := map[];
      new;
      forall f ensures Holders(map[], f) == {} {
      }
    }

    method Create() returns (pd: PageDict)
      requires Valid()
      modifies this`spaces
      ensures fresh(pd) && fresh(pd.dir) && Valid() && spaces == old(spaces)[pd := map[]]
    {
      pd := new PageDict();
      CountedNew(pmm.count[..], spaces, pd);
      spaces := spaces[pd := map[]];
    }

    /** The directory entry of a page gets a table of zeros if it has none. */
    method GetOrCreateTable(pd: PageDict, i: nat, flags: uint32)
      requires Mapped() && pd in spaces && i < ENTRIES && flags < PAGE_SIZE
      modifies pd.dir
      ensures Mapped() && pd.dir.Length == ENTRIES && pd.dir[i].Table?
      ensures forall lo, low :: Entered(old(pd.dir[..]), pd.dir[..], lo, lo, flags, low)
    {
      hide PteWord, Or, FrameManager.Valid;
      DirLength(pd);
      if pd.dir[i].Table? {
        return;
      }
      TableCreated(pd.dir[..], spaces[pd], i, PteFlags(flags));
      pd.dir[i] := Table(PteFlags(flags), seq(ENTRIES, _ => 0));
      assert pd.dir[..] == old(pd.dir[..])[i := Table(PteFlags(flags), seq(ENTRIES, _ => 0))];
    }

    /** Writes the entry of a page whose table exists. */
    static method WritePte(pd: PageDict, ghost flat: Flat, page: nat, pte: uint32)
      requires Shows(pd.dir[..], flat) && page < PAGES && pd.dir[page / ENTRIES].Table?
      modifies pd.dir
      ensures Shows(pd.dir[..], if Present(pte) then flat[page := pte / PAGE_SIZE] else flat - {page})
      ensures PteWritten(old(pd.dir[..]), pd.dir[..], page, pte)
    {
      EntryWritten(pd.dir[..], flat, page, pte);
      var e := pd.dir[page / ENTRIES];
      pd.dir[page / ENTRIES] := e.(ptes := e.ptes[page % ENTRIES := pte]);
      assert pd.dir[..] == old(pd.dir[..])[page / ENTRIES := e.(ptes := e.ptes[page % ENTRIES := pte])];
    }

    /** The entry of a page is written and the flat map with it. */
    method SetEntry(pd: PageDict, page: nat, pte: uint32)
      requires Mapped() && pd in spaces && page < PAGES && pd.dir[page / ENTRIES].Table?
      modifies this`spaces, pd.dir
      ensures Mapped()
      ensures spaces == old(spaces)[pd :=
        if Present(pte) then old(spaces)[pd][page := pte / PAGE_SIZE] else old(spaces)[pd] - {page}]
      ensures PteWritten(old(pd.dir[..]), pd.dir[..], page, pte)
    {
      hide Shows, FrameManager.Valid, PteWritten;
      WritePte(pd, spaces[pd], page, pte);
      spaces := spaces[pd := if Present(pte) then spaces[pd][page := pte / PAGE_SIZE] else spaces[pd] - {page}];
    }

    method TakeFrame() returns (ok: bool, frame: uint32)
      requires Mapped()
      modifies pmm.bitmap.buff, pmm.count
      ensures Mapped() && frame % PAGE_SIZE == 0
      ensures !ok ==>
        pmm.count[..] == old(pmm.count[..]) && forall f :: pmm.allocStart <= f < pmm.count.Length ==> pmm.count[f] > 0
      ensures ok ==> pmm.allocStart <= frame / PAGE_SIZE < pmm.count.Length && old(pmm.count[frame / PAGE_SIZE]) == 0
      ensures ok ==> pmm.count[..] == old(pmm.count[..])[frame / PAGE_SIZE := 1]
    {
      hide Shows, FrameManager.Valid;
      ok, frame := pmm.AllocFrame();
      if !ok {
        frame := 0;
      }
    }

    method AddReference(phys: uint32) returns (ok: bool)
      requires Mapped()
      modifies pmm.bitmap.buff, pmm.count
      ensures Mapped() && (ok <==> phys / PAGE_SIZE < pmm.count.Length)
      ensures pmm.count[..] ==
        if ok then old(pmm.count[..])[phys / PAGE_SIZE := old(pmm.count[phys / PAGE_SIZE]) + 1] else old(pmm.count[..])
    {
      hide Shows, FrameManager.Valid;
      ok := pmm.SetAlloced(phys);
    }

    method DropReference(phys: uint32) returns (ok: bool)
      requires Mapped() && phys / PAGE_SIZE < pmm.count.Length && pmm.count[phys / PAGE_SIZE] > 0
      modifies pmm.bitmap.buff, pmm.count
      ensures ok <==> old(pmm.count[phys / PAGE_SIZE]) > 1 || phys / PAGE_SIZE >= FIRST_USER_FRAME
      ensures ok ==>
        Mapped() && pmm.count[..] == old(pmm.count[..])[phys / PAGE_SIZE := old(pmm.count[phys / PAGE_SIZE]) - 1]
    {
      hide Shows, FrameManager.Valid;
      ok := pmm.FreeFrame(phys);
    }

    /** page_dict_map_page: the page goes to the first frame without references. The counters stay right exactly if the
        page was absent, for a frame it named before is not released. */
    method MapPage(pd: PageDict, va: uint32, flags: uint32) returns (ok: bool)
      requires Mapped() && pd in spaces && flags < PAGE_SIZE
      modifies this`spaces, pd.dir, pmm.bitmap.buff, pmm.count
      ensures Mapped()
      ensures !ok ==> spaces == old(spaces) && pmm.count[..] == old(pmm.count[..])
      ensures !ok ==> forall f :: pmm.allocStart <= f < pmm.count.Length ==> pmm.count[f] > 0
      ensures ok ==>
        && pd in spaces && va / PAGE_SIZE in spaces[pd]
        && var f := spaces[pd][va / PAGE_SIZE];
        && spaces == old(spaces)[pd := old(spaces)[pd][va / PAGE_SIZE := f]]
        && pmm.allocStart <= f < pmm.count.Length && old(pmm.count[f]) == 0
        && pmm.count[..] == old(pmm.count[..])[f := 1]
      ensures old(Valid()) ==> (Valid() <==> !ok || va / PAGE_SIZE !in old(spaces)[pd])
      ensures Entered(old(pd.dir[..]), pd.dir[..], va / PAGE_SIZE, va / PAGE_SIZE + (if ok then 1 else 0), flags,
        PAGE_PRESENT + PAGE_RW)
    {
      hide Mapped, Shows, Counted, PteWord, Or, Holders, FrameManager.Valid, Separate, Entered, PteWritten;
      var page := va / PAGE_SIZE;
      GetOrCreateTable(pd, page / ENTRIES, flags);
      ghost var dir := pd.dir[..];
      var frame;
      ok, frame := TakeFrame();
      if !ok {
        return;
      }
      if Counted(old(pmm.count[..]), spaces) {
        MapOverPresentLeaks(old(pmm.count[..]), spaces, pd, page, frame / PAGE_SIZE);
      }
      PteWordParts(frame, flags, PAGE_PRESENT + PAGE_RW);
      SetEntry(pd, page, PteWord(frame, flags, PAGE_PRESENT + PAGE_RW));
      EnteredOne(old(pd.dir[..]), dir, pd.dir[..], page, PteWord(frame, flags, PAGE_PRESENT + PAGE_RW), flags,
        PAGE_PRESENT + PAGE_RW);
    }

    /** page_dict_map_page_to_phys: the given frame gains a reference. The counters stay right exactly if the page was
        absent. */
    method MapPageToPhys(pd: PageDict, va: uint32, phys: uint32, flags: uint32) returns (ok: bool)
      requires Mapped() && pd in spaces && flags < PAGE_SIZE && phys % PAGE_SIZE == 0
      modifies this`spaces, pd.dir, pmm.bitmap.buff, pmm.count
      ensures Mapped() && (ok <==> phys / PAGE_SIZE < pmm.count.Length)
      ensures spaces ==
        if ok then old(spaces)[pd := old(spaces)[pd][va / PAGE_SIZE := phys / PAGE_SIZE]] else old(spaces)
      ensures pmm.count[..] ==
        if ok then old(pmm.count[..])[phys / PAGE_SIZE := old(pmm.count[phys / PAGE_SIZE]) + 1] else old(pmm.count[..])
      ensures old(Valid()) ==> (Valid() <==> !ok || va / PAGE_SIZE !in old(spaces)[pd])
      ensures Entered(old(pd.dir[..]), pd.dir[..], va / PAGE_SIZE, va / PAGE_SIZE + (if ok then 1 else 0), flags,
        PAGE_PRESENT)
    {
      hide Mapped, Shows, Counted, PteWord, Or, Holders, FrameManager.Valid, Separate, Entered, PteWritten;
      var page := va / PAGE_SIZE;
      GetOrCreateTable(pd, page / ENTRIES, flags);
      ghost var dir := pd.dir[..];
      ok := AddReference(phys);
      if !ok {
        return;
      }
      if Counted(old(pmm.count[..]), spaces) {
        MapOverPresentLeaks(old(pmm.count[..]), spaces, pd, page, phys / PAGE_SIZE);
      }
      PteWordParts(phys, flags, PAGE_PRESENT);
      SetEntry(pd, page, PteWord(phys, flags, PAGE_PRESENT));
      EnteredOne(old(pd.dir[..]), dir, pd.dir[..], page, PteWord(phys, flags, PAGE_PRESENT), flags, PAGE_PRESENT);
    }

    /** page_dict_unmap_page. It panics if the page has no table, or the last reference to a kernel frame goes. */
    method UnmapPage(pd: PageDict, va: uint32) returns (ok: bool)
      requires Valid() && pd in spaces
      modifies this`spaces, pd.dir, pmm.bitmap.buff, pmm.count
      ensures ok <==>
        && old(pd.dir[va / PAGE_SIZE / ENTRIES]).Table?
        && (va / PAGE_SIZE in old(spaces)[pd] ==>
          var f := old(spaces)[pd][va / PAGE_SIZE];
          |Holders(old(spaces), f)| > 1 || f >= FIRST_USER_FRAME)
      ensures ok ==> Valid() && spaces == old(spaces)[pd := old(spaces)[pd] - {va / PAGE_SIZE}]
      ensures ok ==> Cleared(old(pd.dir[..]), pd.dir[..], va / PAGE_SIZE, va / PAGE_SIZE + 1)
    {
      hide Shows, Counted, Holders, FrameManager.Valid, Separate, Cleared, PteWritten;
      var page := va / PAGE_SIZE;
      ShowsPage(pd.dir[..], spaces[pd], page);
      if pd.dir[page / ENTRIES].Absent? {
        return false;
      }
      var pte := pd.dir[page / ENTRIES].ptes[page % ENTRIES];
      if !Present(pte) {
        ClearedAbsent(pd.dir[..], page);
        assert spaces[pd] - {page} == spaces[pd];
        return true;
      }
      CountedUnmap(pmm.count[..], spaces, pd, page);
      ok := DropReference(pte - pte % PAGE_SIZE);
      if !ok {
        return;
      }
      SetEntry(pd, page, 0);
      ClearedOne(old(pd.dir[..]), pd.dir[..], page);
    }

    /** page_dict_map_interval: every page of the interval goes to a frame of its own that no dictionary named
        before, and no other translation changes. It panics only when no frame is left; the counters stay right
        exactly if all pages were absent. */
    method MapInterval(pd: PageDict, start: uint32, size: uint32, flags: uint32) returns (ok: bool)
      requires Valid() && pd in spaces && flags < PAGE_SIZE && Mappable(start, size)
      modifies this`spaces, pd.dir, pmm.bitmap.buff, pmm.count
      ensures Mapped()
      ensures !ok ==> forall f :: pmm.allocStart <= f < pmm.count.Length ==> pmm.count[f] > 0
      ensures ok ==> pd in spaces && spaces == old(spaces)[pd := spaces[pd]]
      ensures ok ==> MappedFresh(old(spaces)[pd], spaces[pd],
        start / PAGE_SIZE, start / PAGE_SIZE + PageCount(start, size), old(spaces))
      ensures ok ==>
        (Valid() <==> NonePresent(old(spaces)[pd], start / PAGE_SIZE, start / PAGE_SIZE + PageCount(start, size)))
      ensures ok ==> Entered(old(pd.dir[..]), pd.dir[..], start / PAGE_SIZE,
        start / PAGE_SIZE + PageCount(start, size), flags, PAGE_PRESENT + PAGE_RW)
    {
      hide Mapped, Shows, Counted, Holders, MappedFresh, FreshCounts, NonePresent, FrameManager.Valid, Separate,
        Entered, PteAt;
      var lo := start / PAGE_SIZE;
      var count := PageCount(start, size);
      ghost var counts := pmm.count[..];
      CoveringPages(start, size);
      MappedNothing(spaces, pd, lo, counts);
      DirLength(pd);
      EnteredNone(pd.dir[..], lo, flags, PAGE_PRESENT + PAGE_RW);
      for i := 0 to count
        invariant Mapped() && pd in spaces && spaces == old(spaces)[pd := spaces[pd]]
        invariant MappedFresh(old(spaces)[pd], spaces[pd], lo, lo + i, old(spaces))
        invariant FreshCounts(counts, pmm.count[..], spaces[pd], lo, lo + i)
        invariant NonePresent(old(spaces)[pd], lo, lo + i) ==> Valid()
        invariant Entered(old(pd.dir[..]), pd.dir[..], lo, lo + i, flags, PAGE_PRESENT + PAGE_RW)
      {
        ghost var flat, before, dir := spaces[pd], pmm.count[..], pd.dir[..];
        ok := MapPage(pd, (lo + i) * PAGE_SIZE, flags);
        if !ok {
          return;
        }
        MappedOne(old(spaces), flat, pd, lo, lo + i, spaces[pd][lo + i], counts, before);
        EnteredNext(old(pd.dir[..]), dir, pd.dir[..], lo, lo + i, flags, PAGE_PRESENT + PAGE_RW);
      }
      FreshCounted(counts, pmm.count[..], old(spaces), spaces, pd, lo, lo + count);
      ok := true;
    }

    /** page_dict_map_interval_to_phys. It panics on offsets that differ or frames beyond memory; the counters stay
        right exactly if all pages were absent. */
    method MapIntervalToPhys(pd: PageDict, start: uint32, phys: uint32, size: uint32, flags: uint32) returns (ok: bool)
      requires Valid() && pd in spaces && flags < PAGE_SIZE && Mappable(start, size) && Mappable(phys, size)
      modifies this`spaces, pd.dir, pmm.bitmap.buff, pmm.count
      ensures Mapped()
      ensures ok <==>
        && phys % PAGE_SIZE == start % PAGE_SIZE
        && (PageCount(phys, size) > 0 ==> phys / PAGE_SIZE + PageCount(phys, size) <= pmm.count.Length)
      ensures ok ==> pd in spaces && spaces == old(spaces)[pd := spaces[pd]] && MappedAlong(old(spaces)[pd], spaces[pd],
        start / PAGE_SIZE, start / PAGE_SIZE + PageCount(start, size), phys / PAGE_SIZE - start / PAGE_SIZE)
      ensures ok ==>
        (Valid() <==> NonePresent(old(spaces)[pd], start / PAGE_SIZE, start / PAGE_SIZE + PageCount(start, size)))
      ensures ok ==> Entered(old(pd.dir[..]), pd.dir[..], start / PAGE_SIZE,
        start / PAGE_SIZE + PageCount(start, size), flags, PAGE_PRESENT)
    {
      hide Mapped, Shows, Counted, Holders, FrameManager.Valid, MappedAlong, NonePresent, Separate, Entered;
      CoveringPages(phys, size);
      if phys % PAGE_SIZE != start % PAGE_SIZE {
        return false;
      }
      CoveringPages(start, size);
      ok := MapPagesToPhys(pd, start / PAGE_SIZE, phys / PAGE_SIZE, PageCount(phys, size), flags);
    }

    /** The loop of page_dict_map_interval_to_phys. */
    method MapPagesToPhys(pd: PageDict, lo: nat, from: nat, count: nat, flags: uint32) returns (ok: bool)
      requires Valid() && pd in spaces && flags < PAGE_SIZE && lo + count <= PAGES && from + count <= PAGES
      modifies this`spaces, pd.dir, pmm.bitmap.buff, pmm.count
      ensures Mapped() && (ok <==> count == 0 || from + count <= pmm.count.Length)
      ensures ok ==> pd in spaces && spaces == old(spaces)[pd := spaces[pd]]
      ensures ok ==> MappedAlong(old(spaces)[pd], spaces[pd], lo, lo + count, from - lo)
      ensures ok ==> (Valid() <==> NonePresent(old(spaces)[pd], lo, lo + count))
      ensures ok ==> Entered(old(pd.dir[..]), pd.dir[..], lo, lo + count, flags, PAGE_PRESENT)
    {
      hide Mapped, Shows, Counted, Holders, FrameManager.Valid, MappedAlong, AlongCounts, NonePresent, Separate,
        Entered;
      ghost var counts := pmm.count[..];
      DirLength(pd);
      EnteredNone(pd.dir[..], lo, flags, PAGE_PRESENT);
      AlongNothing(spaces[pd], lo, from - lo, counts);
      for i := 0 to count
        invariant Mapped() && pd in spaces && spaces == old(spaces)[pd := spaces[pd]]
        invariant i > 0 ==> from + i <= pmm.count.Length
        invariant MappedAlong(old(spaces)[pd], spaces[pd], lo, lo + i, from - lo)
        invariant AlongCounts(counts, pmm.count[..], from, from + i)
        invariant NonePresent(old(spaces)[pd], lo, lo + i) ==> Valid()
        invariant Entered(old(pd.dir[..]), pd.dir[..], lo, lo + i, flags, PAGE_PRESENT)
      {
        ghost var flat, before, dir := spaces[pd], pmm.count[..], pd.dir[..];
        AlongStep(old(spaces)[pd], flat, lo, lo + i, from - lo);
        var virtPage, physPage := (lo + i) * PAGE_SIZE, (from + i) * PAGE_SIZE;
        assert virtPage / PAGE_SIZE == lo + i && physPage / PAGE_SIZE == from + i;
        ok := MapPageToPhys(pd, virtPage, physPage, flags);
        if !ok {
          return;
        }
        AlongCountsStep(counts, before, from, from + i);
        EnteredNext(old(pd.dir[..]), dir, pd.dir[..], lo, lo + i, flags, PAGE_PRESENT);
      }
      AlongCounted(counts, pmm.count[..], old(spaces), spaces, pd, lo, lo + count, from - lo);
      ok := true;
    }

    /** page_dict_unmap_interval: exactly the covering pages go. It panics if one of them has no table, or if a kernel
        frame would lose all its pages. */
    method UnmapInterval(pd: PageDict, start: uint32, size: uint32) returns (ok: bool)
      requires Valid() && pd in spaces && Mappable(start, size)
      modifies this`spaces, pd.dir, pmm.bitmap.buff, pmm.count
      ensures
        var lo, hi := start / PAGE_SIZE, start / PAGE_SIZE + PageCount(start, size);
        var rest := old(spaces)[pd := Outside(old(spaces)[pd], lo, hi)];
        && (ok ==> Valid() && spaces == rest)
        && (ok <==> old(TablesFor(pd, lo, hi)) && StillHeld(rest, old(spaces)[pd], lo, hi))
        && (ok ==> Cleared(old(pd.dir[..]), pd.dir[..], lo, hi))
    {
      hide Valid, Shows, Counted, Holders, FrameManager.Valid, Separate, StillHeld, Outside, Cleared;
      var lo := start / PAGE_SIZE;
      CoveringPages(start, size);
      ghost var flat, hi := spaces[pd], lo + PageCount(start, size);
      ghost var rest := spaces[pd := Outside(flat, lo, hi)];
      StillHeldNone(spaces, flat, lo);
      OutsideNothing(spaces, pd, lo);
      ValidLength(pd);
      ClearedNone(pd.dir[..], lo);
      for i := 0 to PageCount(start, size)
        invariant Valid() && pd in spaces && spaces == old(spaces)[pd := Outside(flat, lo, lo + i)]
        invariant StillHeld(spaces, flat, lo, lo + i)
        invariant Cleared(old(pd.dir[..]), pd.dir[..], lo, lo + i)
        invariant pd.dir.Length == ENTRIES && old(TablesFor(pd, lo, lo + i))
      {
        UnmapNext(old(spaces), pd, lo, lo + i, hi);
        ghost var dir := pd.dir[..];
        ClearedTables(old(pd.dir[..]), dir, lo, lo + i, (lo + i) / ENTRIES);
        ok := UnmapPage(pd, (lo + i) * PAGE_SIZE);
        if !ok {
          return;
        }
        ClearedNext(old(pd.dir[..]), dir, pd.dir[..], lo, lo + i);
      }
      ok := true;
    }

    lemma ValidLength(pd: PageDict)
      requires Valid() && pd in spaces
      ensures pd.dir.Length == ENTRIES
    {
      hide Separate, Counted;
    }

    lemma DirLength(pd: PageDict)
      requires Mapped() && pd in spaces
      ensures pd.dir.Length == ENTRIES
    {
    }

    /** The directory entries of pages [lo, hi) lead to tables. */
    ghost predicate TablesFor(pd: PageDict, lo: int, hi: int)
      reads pd.dir
    {
      forall p :: 0 <= lo <= p < hi <= PAGES && p / ENTRIES < pd.dir.Length ==> pd.dir[p / ENTRIES].Table?
    }

    /** page_dict_copy into a dictionary without tables: its pages name the frames of src, each with one more reference,
        and all its entries have the flags of src. Every frame of src exists, so the copy cannot panic. */
    method Copy(dst: PageDict, src: PageDict)
      requires Valid() && dst in spaces && src in spaces && dst != src
      requires forall i :: 0 <= i < dst.dir.Length ==> dst.dir[i].Absent?
      modifies this`spaces, dst.dir, pmm.bitmap.buff, pmm.count
      ensures Valid() && spaces == old(spaces)[dst := old(spaces)[src]] && dst.dir[..] == src.dir[..]
      ensures src.dir[..] == old(src.dir[..])
    {
      hide Shows, Counted, Holders, FrameManager.Valid, PteAt, Below;
      ghost var flat := spaces[src];
      EmptyBelow(dst.dir[..], spaces[dst], src.dir[..], flat);
      assert spaces == spaces[dst := spaces[dst]];
      for i := 0 to ENTRIES
        invariant Valid() && dst in spaces && spaces == old(spaces)[dst := Below(flat, i * ENTRIES)]
        invariant dst.dir.Length == src.dir.Length == ENTRIES
        invariant forall k :: 0 <= k < i ==> dst.dir[k] == src.dir[k]
        invariant forall k :: i <= k < ENTRIES ==> dst.dir[k].Absent?
      {
        CopyEntry(dst, src, i);
      }
      WholeBelow(src.dir[..], flat);
    }

    /** One step of page_dict_copy. */
    method CopyEntry(dst: PageDict, src: PageDict, i: nat)
      requires Valid() && dst in spaces && src in spaces && dst != src && i < ENTRIES
      requires dst.dir.Length == src.dir.Length == ENTRIES && spaces[dst] == Below(spaces[src], i * ENTRIES)
      requires forall k :: 0 <= k < ENTRIES ==> dst.dir[k] == if k < i then src.dir[k] else Absent
      modifies this`spaces, dst.dir, pmm.bitmap.buff, pmm.count
      ensures Valid() && spaces == old(spaces)[dst := Below(old(spaces)[src], (i + 1) * ENTRIES)]
      ensures dst.dir[..] == old(dst.dir[..])[i := src.dir[i]]
    {
      hide Shows, Counted, Holders, FrameManager.Valid, PteAt, Below;
      ghost var flat := spaces[src];
      var entry := src.dir[i];
      if entry.Table? {
        TableOf(src.dir[..], flat, i);
        FramesExist(pmm.count[..], spaces, src);
        CopyTable(dst, entry.ptes, i, flat);
      } else {
        SkippedTable(src.dir[..], flat, i);
        assert spaces == spaces[dst := spaces[dst]];
      }
      CopiedShows(dst.dir[..][i := entry], src.dir[..], flat, i + 1);
      PlaceEntry(dst, i, entry);
    }

    method PlaceEntry(pd: PageDict, i: nat, entry: Entry)
      requires pmm.Valid() && Counted(pmm.count[..], spaces) && Separate() && pd in spaces && i < pd.dir.Length
      requires forall pd' :: pd' in spaces && pd' != pd ==> Shows(pd'.dir[..], spaces[pd'])
      requires Shows(pd.dir[..][i := entry], spaces[pd])
      modifies pd.dir
      ensures Valid() && pd.dir[..] == old(pd.dir[..])[i := entry]
    {
      hide Shows, Counted, Holders;
      pd.dir[i] := entry;
      assert pd.dir[..] == old(pd.dir[..])[i := entry];
    }

    /** page_table_copy: the new table is a copy of the old one, and each frame it names gains a reference. */
    method CopyTable(dst: PageDict, ptes: seq<uint32>, i: nat, ghost flat: Flat)
      requires pmm.Valid() && Counted(pmm.count[..], spaces) && dst in spaces && i < ENTRIES
      requires spaces[dst] == Below(flat, i * ENTRIES) && TableShows(ptes, flat, i)
      requires forall p :: p in flat ==> 0 <= flat[p] < pmm.count.Length
      modifies this`spaces, pmm.bitmap.buff, pmm.count
      ensures pmm.Valid() && Counted(pmm.count[..], spaces)
      ensures spaces == old(spaces)[dst := Below(flat, (i + 1) * ENTRIES)]
    {
      hide Shows, Counted, Holders, FrameManager.Valid, PteAt, Below;
      assert spaces == spaces[dst := spaces[dst]];
      for j := 0 to ENTRIES
        invariant pmm.Valid() && Counted(pmm.count[..], spaces) && dst in spaces
        invariant spaces == old(spaces)[dst := Below(flat, i * ENTRIES + j)]
      {
        BelowStep(flat, i * ENTRIES + j);
        if Present(ptes[j]) {
          CountedMap(pmm.count[..], spaces, dst, i * ENTRIES + j, ptes[j] / PAGE_SIZE);
          var ok := pmm.SetAlloced(ptes[j] - ptes[j] % PAGE_SIZE);
          spaces := spaces[dst := spaces[dst][i * ENTRIES + j := ptes[j] / PAGE_SIZE]];
        }
      }
    }

    /** page_dict_destroy: every page of the dictionary gives its reference back, and the other dictionaries keep
        theirs. It panics exactly if a kernel frame would lose all its pages. */
    method Destroy(pd: PageDict) returns (ok: bool)
      requires Valid() && pd in spaces
      modifies this`spaces, pmm.bitmap.buff, pmm.count
      ensures ok ==> Valid() && spaces == old(spaces) - {pd}
      ensures ok <==> forall p :: p in old(spaces)[pd] && old(spaces)[pd][p] < FIRST_USER_FRAME ==>
        Holders(old(spaces) - {pd}, old(spaces)[pd][p]) != {}
    {
      hide Shows, Counted, Holders, FrameManager.Valid, PteAt, From, StillHeld;
      ghost var flat := spaces[pd];
      FromBounds(pd.dir[..], flat);
      StillHeldNone(spaces, flat, 0);
      StillHeldAll(spaces - {pd}, pd.dir[..], flat);
      assert spaces == spaces[pd := spaces[pd]];
      for i := 0 to ENTRIES
        invariant Mapped0(pd) && Counted(pmm.count[..], spaces) && pd in spaces
        invariant spaces == old(spaces)[pd := From(flat, i * ENTRIES)]
        invariant StillHeld(spaces, flat, 0, i * ENTRIES)
      {
        if pd.dir[i].Table? {
          TableOf(pd.dir[..], flat, i);
          ok := DestroyTable(pd, pd.dir[i].ptes, i, flat, old(spaces));
          if !ok {
            return;
          }
        } else {
          SkippedFrom(pd.dir[..], flat, i);
          SkippedHeld(pd.dir[..], spaces, flat, i);
        }
      }
      Destroyed(pmm.count[..], old(spaces), pd, flat);
      spaces := spaces - {pd};
      assert spaces == old(spaces) - {pd};
      return true;
    }

    /** page_table_destroy, for the table of pages from i * ENTRIES on of a dictionary that showed `flat` among
        `all`. */
    method DestroyTable(pd: PageDict, ptes: seq<uint32>, i: nat, ghost flat: Flat, ghost all: Spaces) returns (ok: bool)
      requires Mapped0(pd) && Counted(pmm.count[..], spaces) && pd in all && i < ENTRIES && TableShows(ptes, flat, i)
      requires all[pd] == flat && spaces == all[pd := From(flat, i * ENTRIES)]
      requires StillHeld(spaces, flat, 0, i * ENTRIES)
      requires forall p :: p in flat ==> 0 <= p < PAGES
      modifies this`spaces, pmm.bitmap.buff, pmm.count
      ensures ok ==> Mapped0(pd) && Counted(pmm.count[..], spaces)
      ensures ok ==> spaces == all[pd := From(flat, (i + 1) * ENTRIES)] && StillHeld(spaces, flat, 0, (i + 1) * ENTRIES)
      ensures StillHeld(all - {pd}, flat, 0, PAGES) ==> ok
    {
      hide Mapped0, TableShows, Counted, Holders, FrameManager.Valid, From, StillHeld;
      for j := 0 to ENTRIES
        invariant Mapped0(pd) && Counted(pmm.count[..], spaces)
        invariant spaces == all[pd := From(flat, i * ENTRIES + j)] && StillHeld(spaces, flat, 0, i * ENTRIES + j)
      {
        TableEntry(ptes, flat, i, j);
        FromStep(flat, i * ENTRIES + j);
        DestroyNext(all, pd, flat, i * ENTRIES + j);
        if Present(ptes[j]) {
          ok := DropPage(pd, i * ENTRIES + j, ptes[j]);
          if !ok {
            return;
          }
        }
      }
      return true;
    }

    /** All is well but for the dictionary that is being destroyed. */
    ghost predicate Mapped0(pd: PageDict)
      reads this, pmm, pmm.bitmap, pmm.bitmap.buff, pmm.count, set pd' | pd' in spaces :: pd'.dir
    {
      && pmm.Valid() && Separate()
      && forall pd' :: pd' in spaces && pd' != pd ==> Shows(pd'.dir[..], spaces[pd'])
    }

    /** A page of the dictionary that is being destroyed gives its reference back. */
    method DropPage(ghost pd: PageDict, ghost page: int, pte: uint32) returns (ok: bool)
      requires Mapped0(pd) && Counted(pmm.count[..], spaces) && pd in spaces && page in spaces[pd]
      requires spaces[pd][page] == pte / PAGE_SIZE
      modifies this`spaces, pmm.bitmap.buff, pmm.count
      ensures ok <==> |Holders(old(spaces), pte / PAGE_SIZE)| > 1 || pte / PAGE_SIZE >= FIRST_USER_FRAME
      ensures ok ==> Mapped0(pd) && Counted(pmm.count[..], spaces)
      ensures ok ==> spaces == old(spaces)[pd := old(spaces)[pd] - {page}]
    {
      hide Shows, Holders, Counted, FrameManager.Valid;
      CountedUnmap(pmm.count[..], spaces, pd, page);
      ok := pmm.FreeFrame(pte - pte % PAGE_SIZE);
      if ok {
        spaces := spaces[pd := spaces[pd] - {page}];
      }
    }

    /** A copy of a dictionary into one without tables, destroyed again, leaves all counters and dictionaries as they
        were, kernel frames included. */
    method CopyThenDestroy(dst: PageDict, src: PageDict) returns (ok: bool)
      requires Valid() && dst in spaces && src in spaces && dst != src
      requires forall i :: 0 <= i < dst.dir.Length ==> dst.dir[i].Absent?
      modifies this`spaces, dst.dir, pmm.bitmap.buff, pmm.count
      ensures ok && Valid() && spaces == old(spaces) - {dst} && pmm.count[..] == old(pmm.count[..])
    {
      hide Shows, Counted, Holders, FrameManager.Valid, PteAt, Separate;
      ghost var counts, before := pmm.count[..], spaces;
      EmptyBelow(dst.dir[..], spaces[dst], src.dir[..], spaces[src]);
      CountedDrop(counts, spaces, dst);
      Copy(dst, src);
      CopiedHeld(before, dst, src);
      ok := Destroy(dst);
      assert spaces == before - {dst};
      CountsDetermined(counts, pmm.count[..], spaces);
    }
  }

  lemma StillHeldNone(spaces: Spaces, flat: Flat, lo: int)
    ensures StillHeld(spaces, flat, lo, lo)
  {
  }

  lemma StillHeldAll(rest: Spaces, dir: seq<Entry>, flat: Flat)
    requires Shows(dir, flat)
    ensures StillHeld(rest, flat, 0, PAGES) <==>
      forall p :: p in flat && flat[p] < FIRST_USER_FRAME ==> Holders(rest, flat[p]) != {}
    ensures forall p :: p in flat ==> 0 <= p < PAGES
  {
  }

  lemma SkippedHeld(dir: seq<Entry>, spaces: Spaces, flat: Flat, i: nat)
    requires Shows(dir, flat) && i < ENTRIES && dir[i].Absent? && StillHeld(spaces, flat, 0, i * ENTRIES)
    ensures StillHeld(spaces, flat, 0, (i + 1) * ENTRIES)
  {
    forall p | p in flat && i * ENTRIES <= p < (i + 1) * ENTRIES ensures p / ENTRIES != i {
      assert Present(PteAt(dir, p));
    }
  }

  /** Once all pages have been dropped, the frames still held are held by the other dictionaries. */
  lemma Destroyed(count: seq<nat>, all: Spaces, pd: PageDict, flat: Flat)
    requires pd in all && Counted(count, all[pd := From(flat, PAGES)]) && From(flat, PAGES) == map[]
    requires StillHeld(all[pd := From(flat, PAGES)], flat, 0, PAGES)
    ensures all[pd := From(flat, PAGES)] - {pd} == all - {pd}
    ensures Counted(count, all - {pd}) && StillHeld(all - {pd}, flat, 0, PAGES)
  {
    var last := all[pd := From(flat, PAGES)];
    assert last - {pd} == all - {pd};
    CountedDrop(count, last, pd);
    forall f ensures Holders(all - {pd}, f) == Holders(last, f) {
    }
  }

  /** The next page of a dictionary that is being destroyed. */
  lemma DestroyNext(all: Spaces, pd: PageDict, flat: Flat, k: nat)
    requires pd in all && all[pd] == flat && k < PAGES
    ensures
      var now, next := all[pd := From(flat, k)], all[pd := From(flat, k + 1)];
      && (StillHeld(now, flat, 0, k) && k !in flat ==> next == now && StillHeld(next, flat, 0, k + 1))
      && (StillHeld(all - {pd}, flat, 0, PAGES) && k in flat && flat[k] < FIRST_USER_FRAME ==>
        |Holders(now, flat[k])| > 1)
      && (StillHeld(now, flat, 0, k) && k in flat && (|Holders(now, flat[k])| > 1 || flat[k] >= FIRST_USER_FRAME) ==>
        StillHeld(next, flat, 0, k + 1))
  {
    hide Holders;
    var now, next := all[pd := From(flat, k)], all[pd := From(flat, k + 1)];
    FromStep(flat, k);
    if k in flat {
      assert next == now[pd := now[pd] - {k}];
      OthersHold(all, pd, flat, k, flat[k]);
      if StillHeld(all - {pd}, flat, 0, PAGES) && flat[k] < FIRST_USER_FRAME {
        TwoHolders(now, all - {pd}, pd, k);
      }
      if StillHeld(now, flat, 0, k) && (|Holders(now, flat[k])| > 1 || flat[k] >= FIRST_USER_FRAME) {
        StillHeldStep(now, pd, k, flat, 0);
      }
    }
  }

  lemma OthersHold(all: Spaces, pd: PageDict, flat: Flat, k: int, f: int)
    requires pd in all
    ensures Holders(all - {pd}, f) <= Holders(all[pd := From(flat, k)], f) && (pd, k) !in Holders(all - {pd}, f)
  {
  }

  /** After a copy, every frame of the copy is named by the original too. */
  lemma CopiedHeld(spaces: Spaces, dst: PageDict, src: PageDict)
    requires dst in spaces && src in spaces && dst != src
    ensures
      var all := spaces[dst := spaces[src]];
      && all - {dst} == spaces - {dst}
      && forall p :: p in all[dst] ==> Holders(all - {dst}, all[dst][p]) != {}
  {
    var all := spaces[dst := spaces[src]];
    forall p | p in all[dst] ensures Holders(all - {dst}, all[dst][p]) != {} {
      assert (src, p) in Holders(all - {dst}, all[dst][p]);
    }
  }

  function From(flat: Flat, k: int): Flat {
    map p | p in flat && p >= k :: flat[p]
  }

  lemma FromStep(flat: Flat, k: int)
    ensures From(flat, k + 1) == From(flat, k) - {k}
    ensures k !in flat ==> From(flat, k + 1) == From(flat, k)
    ensures k in From(flat, k) <==> k in flat
    ensures k in flat ==> From(flat, k)[k] == flat[k]
  {
  }

  lemma FromBounds(dir: seq<Entry>, flat: Flat)
    requires Shows(dir, flat)
    ensures |dir| == ENTRIES && From(flat, 0) == flat && From(flat, PAGES) == map[]
  {
  }

  lemma SkippedFrom(dir: seq<Entry>, flat: Flat, i: nat)
    requires Shows(dir, flat) && i < ENTRIES && dir[i].Absent?
    ensures From(flat, (i + 1) * ENTRIES) == From(flat, i * ENTRIES)
  {
    forall p | p in flat && i * ENTRIES <= p < (i + 1) * ENTRIES ensures p / ENTRIES != i {
      assert Present(PteAt(dir, p));
    }
  }

  /** Table i of a directory, as far as the flat map goes. */
  ghost predicate TableShows(ptes: seq<uint32>, flat: Flat, i: nat) {
    && |ptes| == ENTRIES
    && forall j :: 0 <= j < ENTRIES ==>
      && (i * ENTRIES + j in flat <==> Present(ptes[j]))
      && (i * ENTRIES + j in flat ==> flat[i * ENTRIES + j] == ptes[j] / PAGE_SIZE)
  }

  lemma TableEntry(ptes: seq<uint32>, flat: Flat, i: nat, j: nat)
    requires TableShows(ptes, flat, i) && j < ENTRIES
    ensures |ptes| == ENTRIES && (i * ENTRIES + j in flat <==> Present(ptes[j]))
    ensures i * ENTRIES + j in flat ==> flat[i * ENTRIES + j] == ptes[j] / PAGE_SIZE
  {
  }

  lemma TableOf(dir: seq<Entry>, flat: Flat, i: nat)
    requires Shows(dir, flat) && i < ENTRIES && dir[i].Table?
    ensures TableShows(dir[i].ptes, flat, i)
  {
    hide Shows;
    ShowsPage(dir, flat, i * ENTRIES);
    forall j | 0 <= j < ENTRIES
      ensures i * ENTRIES + j in flat <==> Present(dir[i].ptes[j])
      ensures i * ENTRIES + j in flat ==> flat[i * ENTRIES + j] == dir[i].ptes[j] / PAGE_SIZE
    {
      ShowsPage(dir, flat, i * ENTRIES + j);
    }
  }

  function Below(flat: Flat, k: int): Flat {
    map p | p in flat && p < k :: flat[p]
  }

  lemma BelowStep(flat: Flat, k: int)
    ensures Below(flat, k + 1) == if k in flat then Below(flat, k)[k := flat[k]] else Below(flat, k)
    ensures k !in Below(flat, k)
  {
  }

  lemma FramesExist(count: seq<nat>, spaces: Spaces, pd: PageDict)
    requires Counted(count, spaces) && pd in spaces
    ensures forall p :: p in spaces[pd] ==> 0 <= spaces[pd][p] < |count|
  {
  }

  lemma EmptyBelow(dir: seq<Entry>, own: Flat, src: seq<Entry>, flat: Flat)
    requires Shows(dir, own) && Shows(src, flat) && forall i :: 0 <= i < |dir| ==> dir[i].Absent?
    ensures |dir| == |src| == ENTRIES
    ensures own == map[] && Below(flat, 0) == map[]
  {
    forall p: nat | p < PAGES ensures p !in own {
      assert !Present(PteAt(dir, p));
    }
  }

  lemma SkippedTable(src: seq<Entry>, flat: Flat, i: nat)
    requires Shows(src, flat) && i < ENTRIES && src[i].Absent?
    ensures Below(flat, (i + 1) * ENTRIES) == Below(flat, i * ENTRIES)
  {
    forall p | p in flat && i * ENTRIES <= p < (i + 1) * ENTRIES ensures p / ENTRIES != i {
      assert Present(PteAt(src, p));
    }
  }

  lemma CopiedShows(dst: seq<Entry>, src: seq<Entry>, flat: Flat, k: nat)
    requires Shows(src, flat) && |dst| == ENTRIES && k <= ENTRIES
    requires forall i :: 0 <= i < ENTRIES ==> dst[i] == if i < k then src[i] else Absent
    ensures Shows(dst, Below(flat, k * ENTRIES))
  {
    forall p: nat | p < PAGES ensures PteAt(dst, p) == if p < k * ENTRIES then PteAt(src, p) else 0 {
      assert p < k * ENTRIES <==> p / ENTRIES < k;
    }
  }

  lemma WholeBelow(src: seq<Entry>, flat: Flat)
    requires Shows(src, flat)
    ensures Below(flat, PAGES) == flat
  {
  }

  /** The pages [lo, hi) have been added to a flat map, each on the frame `shift` further on. */
  ghost predicate MappedAlong(flat0: Flat, flat: Flat, lo: int, hi: int, shift: int) {
    && (forall p :: p in flat <==> p in flat0 || lo <= p < hi)
    && (forall p :: p in flat ==> flat[p] == if lo <= p < hi then p + shift else flat0[p])
  }

  /** Frames [lo, hi) have gained a reference each. */
  ghost predicate AlongCounts(count0: seq<nat>, count: seq<nat>, lo: int, hi: int) {
    |count| == |count0| && forall g :: 0 <= g < |count| ==> count[g] == count0[g] + if lo <= g < hi then 1 else 0
  }

  lemma AlongNothing(flat: Flat, lo: int, shift: int, count: seq<nat>)
    ensures MappedAlong(flat, flat, lo, lo, shift) && AlongCounts(count, count, lo + shift, lo + shift)
    ensures NonePresent(flat, lo, lo)
  {
  }

  lemma AlongStep(flat0: Flat, flat: Flat, lo: int, k: int, shift: int)
    requires lo <= k && MappedAlong(flat0, flat, lo, k, shift)
    ensures MappedAlong(flat0, flat[k := k + shift], lo, k + 1, shift) && (k in flat <==> k in flat0)
    ensures NonePresent(flat0, lo, k + 1) <==> NonePresent(flat0, lo, k) && k !in flat
  {
  }

  lemma AlongCountsStep(count0: seq<nat>, count: seq<nat>, lo: int, k: int)
    requires lo <= k && 0 <= k < |count| && AlongCounts(count0, count, lo, k)
    ensures AlongCounts(count0, count[k := count[k] + 1], lo, k + 1)
  {
  }

  /** A page that was present keeps its old frame from losing the reference, so the counters are no longer right. */
  lemma AlongCounted(count0: seq<nat>, count: seq<nat>, spaces0: Spaces, spaces: Spaces, pd: PageDict, lo: int, hi: int,
    shift: int)
    requires Counted(count0, spaces0) && pd in spaces0 && pd in spaces && spaces == spaces0[pd := spaces[pd]]
    requires MappedAlong(spaces0[pd], spaces[pd], lo, hi, shift) && AlongCounts(count0, count, lo + shift, hi + shift)
    ensures Counted(count, spaces) ==> NonePresent(spaces0[pd], lo, hi)
  {
    if p :| p in spaces0[pd] && lo <= p < hi {
      AlongLeak(spaces0, spaces, pd, lo, hi, shift, p);
      assert count[spaces0[pd][p]] > |Holders(spaces, spaces0[pd][p])|;
    }
  }

  /** The old frame of a page that was present has at most one page in exchange. */
  lemma AlongLeak(spaces0: Spaces, spaces: Spaces, pd: PageDict, lo: int, hi: int, shift: int, p: int)
    requires pd in spaces0 && pd in spaces && spaces == spaces0[pd := spaces[pd]] && p in spaces0[pd] && lo <= p < hi
    requires MappedAlong(spaces0[pd], spaces[pd], lo, hi, shift)
    ensures
      var g := spaces0[pd][p];
      |Holders(spaces, g)| < |Holders(spaces0, g)| + if lo + shift <= g < hi + shift then 1 else 0
  {
    var g := spaces0[pd][p];
    var before, extra := Holders(spaces0, g), if lo + shift <= g < hi + shift then {(pd, g - shift)} else {};
    assert (pd, p) in before;
    assert Holders(spaces, g) <= (before - {(pd, p)}) + extra;
    SubsetSize(Holders(spaces, g), (before - {(pd, p)}) + extra);
  }

  ghost predicate NonePresent(flat: Flat, lo: int, hi: int) {
    forall p :: lo <= p < hi ==> p !in flat
  }

  ghost function Outside(flat: Flat, lo: int, hi: int): Flat {
    map p | p in flat && !(lo <= p < hi) :: flat[p]
  }

  /** After mapping an interval to physical memory, byte start + k of it is found at phys + k. */
  lemma IntervalTranslates(dir: seq<Entry>, flat0: Flat, flat: Flat, start: uint32, phys: uint32, size: uint32, k: nat)
    requires Shows(dir, flat) && Mappable(start, size) && Mappable(phys, size)
    requires start % PAGE_SIZE == phys % PAGE_SIZE && k < size
    requires MappedAlong(flat0, flat,
      start / PAGE_SIZE, start / PAGE_SIZE + PageCount(start, size), phys / PAGE_SIZE - start / PAGE_SIZE)
    ensures Translate(dir, start + k) == At(phys + k)
  {
    hide Shows, PteAt;
    CoveringPages(start, size);
    assert start <= start + k < start + size;
    var page := (start + k) / PAGE_SIZE;
    assert page in flat;
    TranslateFlat(dir, flat, start + k);
  }

  /** After page_dict_map_interval every byte of the interval translates, and outside the covering pages every address
      translates, or faults, as before. */
  lemma FreshIntervalTranslates(dir0: seq<Entry>, dir: seq<Entry>, spaces0: Spaces, flat0: Flat, flat: Flat,
    start: uint32, size: uint32, va: uint32)
    requires Shows(dir0, flat0) && Shows(dir, flat) && Mappable(start, size)
    requires MappedFresh(flat0, flat, start / PAGE_SIZE, start / PAGE_SIZE + PageCount(start, size), spaces0)
    ensures start <= va < start + size ==> Translate(dir, va).At?
    ensures !(start / PAGE_SIZE <= va / PAGE_SIZE < start / PAGE_SIZE + PageCount(start, size)) ==>
      Translate(dir, va) == Translate(dir0, va)
  {
    hide Shows, PteAt;
    CoveringPages(start, size);
    TranslateFlat(dir, flat, va);
    TranslateFlat(dir0, flat0, va);
    assert start <= va < start + size ==> va / PAGE_SIZE in flat;
  }

  /** The pages [lo, hi) have been added to a flat map, on distinct frames that `spaces` did not name at all. */
  ghost predicate MappedFresh(flat0: Flat, flat: Flat, lo: int, hi: int, spaces: Spaces) {
    && (forall p :: p in flat <==> p in flat0 || lo <= p < hi)
    && (forall p :: p in flat0 && !(lo <= p < hi) ==> flat[p] == flat0[p])
    && (forall p :: lo <= p < hi ==> Holders(spaces, flat[p]) == {})
    && (forall p, q :: lo <= p < q < hi ==> flat[p] != flat[q])
  }

  /** The frames of pages [lo, hi) had no references and have some now; frames that had some have as many as before. */
  ghost predicate FreshCounts(count0: seq<nat>, count: seq<nat>, flat: Flat, lo: int, hi: int) {
    && |count| == |count0|
    && (forall g :: 0 <= g < |count| && count0[g] > 0 ==> count[g] == count0[g])
    && (forall p :: lo <= p < hi ==> p in flat && 0 <= flat[p] < |count| && count0[flat[p]] == 0 && count[flat[p]] > 0)
  }

  lemma MappedNothing(spaces: Spaces, pd: PageDict, lo: int, count: seq<nat>)
    requires pd in spaces
    ensures MappedFresh(spaces[pd], spaces[pd], lo, lo, spaces) && FreshCounts(count, count, spaces[pd], lo, lo)
    ensures NonePresent(spaces[pd], lo, lo)
  {
  }

  /** One page more, on a frame without references: it had none to begin with, and is none of those taken since. */
  lemma MappedOne(spaces0: Spaces, flat: Flat, pd: PageDict, lo: int, k: int, f: int, count0: seq<nat>, count: seq<nat>)
    requires pd in spaces0 && lo <= k && Counted(count0, spaces0)
    requires MappedFresh(spaces0[pd], flat, lo, k, spaces0) && FreshCounts(count0, count, flat, lo, k)
    requires 0 <= f < |count| && count[f] == 0
    ensures MappedFresh(spaces0[pd], flat[k := f], lo, k + 1, spaces0)
    ensures FreshCounts(count0, count[f := 1], flat[k := f], lo, k + 1)
    ensures NonePresent(spaces0[pd], lo, k + 1) <==> NonePresent(spaces0[pd], lo, k) && k !in flat
  {
    hide Holders, Counted;
    Unheld(count0, spaces0, f);
    CountedOne(flat, lo, k, f, count0, count);
  }

  lemma Unheld(count: seq<nat>, spaces: Spaces, f: int)
    requires Counted(count, spaces) && 0 <= f < |count|
    ensures count[f] == 0 ==> Holders(spaces, f) == {}
  {
    hide Holders;
  }

  lemma CountedOne(flat: Flat, lo: int, k: int, f: int, count0: seq<nat>, count: seq<nat>)
    requires FreshCounts(count0, count, flat, lo, k) && 0 <= f < |count| && count[f] == 0
    ensures count0[f] == 0 && FreshCounts(count0, count[f := 1], flat[k := f], lo, k + 1)
  {
  }

  /** A page that was present leaves its old frame with one reference too many. */
  lemma FreshCounted(count0: seq<nat>, count: seq<nat>, spaces0: Spaces, spaces: Spaces, pd: PageDict, lo: int, hi: int)
    requires Counted(count0, spaces0) && pd in spaces0 && pd in spaces && spaces == spaces0[pd := spaces[pd]]
    requires MappedFresh(spaces0[pd], spaces[pd], lo, hi, spaces0) && FreshCounts(count0, count, spaces[pd], lo, hi)
    ensures Counted(count, spaces) ==> NonePresent(spaces0[pd], lo, hi)
  {
    if p :| p in spaces0[pd] && lo <= p < hi {
      var g := spaces0[pd][p];
      assert (pd, p) in Holders(spaces0, g);
      assert Holders(spaces, g) <= Holders(spaces0, g) - {(pd, p)};
      SubsetSize(Holders(spaces, g), Holders(spaces0, g) - {(pd, p)});
      assert count[g] > |Holders(spaces, g)|;
    }
  }

  lemma OutsideNothing(spaces: Spaces, pd: PageDict, lo: int)
    requires pd in spaces
    ensures spaces == spaces[pd := Outside(spaces[pd], lo, lo)]
  {
    assert Outside(spaces[pd], lo, lo) == spaces[pd];
  }

  /** The next page of an interval that is being unmapped. */
  lemma UnmapNext(all: Spaces, pd: PageDict, lo: int, k: int, hi: int)
    requires pd in all && lo <= k < hi
    ensures
      var flat := all[pd];
      var now, next := all[pd := Outside(flat, lo, k)], all[pd := Outside(flat, lo, k + 1)];
      && next == now[pd := now[pd] - {k}] && (k in flat <==> k in now[pd]) && (k in flat ==> now[pd][k] == flat[k])
      && (StillHeld(all[pd := Outside(flat, lo, hi)], flat, lo, hi) && k in flat && flat[k] < FIRST_USER_FRAME ==>
        |Holders(now, flat[k])| > 1)
      && (StillHeld(now, flat, lo, k) && (k in flat ==> |Holders(now, flat[k])| > 1 || flat[k] >= FIRST_USER_FRAME) ==>
        StillHeld(next, flat, lo, k + 1))
  {
    hide Holders;
    var flat := all[pd];
    var now, next := all[pd := Outside(flat, lo, k)], all[pd := Outside(flat, lo, k + 1)];
    assert Outside(flat, lo, k + 1) == Outside(flat, lo, k) - {k};
    if k !in flat {
      assert Outside(flat, lo, k) - {k} == Outside(flat, lo, k);
    } else {
      OutsideHold(all, pd, lo, k, hi, flat[k]);
      if StillHeld(all[pd := Outside(flat, lo, hi)], flat, lo, hi) && flat[k] < FIRST_USER_FRAME {
        TwoHolders(now, all[pd := Outside(flat, lo, hi)], pd, k);
      }
      if StillHeld(now, flat, lo, k) && (|Holders(now, flat[k])| > 1 || flat[k] >= FIRST_USER_FRAME) {
        StillHeldStep(now, pd, k, flat, lo);
      }
    }
  }

  lemma OutsideHold(all: Spaces, pd: PageDict, lo: int, k: int, hi: int, f: int)
    requires pd in all && lo <= k < hi
    ensures
      var rest := all[pd := Outside(all[pd], lo, hi)];
      Holders(rest, f) <= Holders(all[pd := Outside(all[pd], lo, k)], f) && (pd, k) !in Holders(rest, f)
  {
  }

  function PteFlags(flags: uint32): (r: uint32)
    requires flags < PAGE_SIZE
    ensures r == Or(flags, PAGE_PRESENT + PAGE_RW)
  {
    assert Or(0, flags) == flags;
    PteWordParts(0, flags, PAGE_PRESENT + PAGE_RW);
    PteWord(0, flags, PAGE_PRESENT + PAGE_RW)
  }
}
