/**
 * Cluster chains in the file allocation table (Microsoft FAT32 File System Specification v1.03, "FAT Data Structure"),
 * as facts about the sequence of its 32-bit entries.
 */
module FatModel {
  import opened Machine

  const EMPTY: uint32 := 0
  const BAD: uint32 := 0x0FFF_FFF7
  const LAST: uint32 := 0x0FFF_FFFF

  type Fat = seq<uint32>

  /** The entry of a cluster without its four reserved bits. */
  function Val(fat: Fat, c: int): (v: uint32)
    requires 0 <= c < |fat|
    ensures v < 0x1000_0000
  {
    fat[c] % 0x1000_0000
  }

  predicate IsError(v: uint32) {
    v == BAD || v == EMPTY
  }

  predicate IsLast(v: uint32) {
    v > BAD
  }

  /** Distinct clusters, each but the last naming the next. */
  ghost predicate IsRun(fat: Fat, cs: seq<int>) {
    && cs != [] && |fat| <= BAD
    && (forall i :: 0 <= i < |cs| ==> 2 <= cs[i] < |fat|)
    && (forall i, j :: 0 <= i < j < |cs| ==> cs[i] != cs[j])
    && (forall i :: 0 <= i < |cs| - 1 ==> Val(fat, cs[i]) == cs[i + 1])
  }

  ghost predicate IsChain(fat: Fat, cs: seq<int>) {
    IsRun(fat, cs) && IsLast(Val(fat, cs[|cs| - 1]))
  }

  ghost predicate Apart(a: seq<int>, b: seq<int>) {
    forall i, j :: 0 <= i < |a| && 0 <= j < |b| ==> a[i] != b[j]
  }

  ghost predicate Owned(css: seq<seq<int>>, c: int) {
    exists a :: 0 <= a < |css| && c in css[a]
  }

  /** The table is a set of disjoint chains: every cluster is free, bad, or in one of them. */
  ghost predicate Live(fat: Fat, css: seq<seq<int>>) {
    && (forall a :: 0 <= a < |css| ==> IsChain(fat, css[a]))
    && (forall a, b :: 0 <= a < b < |css| ==> Apart(css[a], css[b]))
    && (forall c :: 2 <= c < |fat| && !IsError(Val(fat, c)) ==> Owned(css, c))
  }

  /** Only the entries of the given clusters have been emptied. */
  ghost predicate Emptied(fat: Fat, fat': Fat, cs: seq<int>) {
    |fat'| == |fat| && forall c :: 0 <= c < |fat| ==> fat'[c] == if c in cs then EMPTY else fat[c]
  }

  // ---- taking and releasing ----

  /** The table after a cluster has been taken to follow prev, or to begin a chain if prev is zero. */
  function Taken(fat: Fat, prev: uint32, t: int): (fat': Fat)
    requires prev < |fat| <= BAD && 0 <= t < |fat|
    ensures |fat'| == |fat|
  {
    (if prev != 0 then fat[prev := t] else fat)[t := LAST]
  }

  lemma ChainUntouched(fat: Fat, fat': Fat, cs: seq<int>)
    requires IsChain(fat, cs) && |fat'| == |fat| && forall i :: 0 <= i < |cs| ==> fat'[cs[i]] == fat[cs[i]]
    ensures IsChain(fat', cs)
  {
    forall i | 0 <= i < |cs| ensures Val(fat', cs[i]) == Val(fat, cs[i]) {
    }
    forall i | 0 <= i < |cs| - 1 ensures Val(fat', cs[i]) == cs[i + 1] {
      assert Val(fat, cs[i]) == cs[i + 1];
    }
  }

  lemma ChainFacts(fat: Fat, cs: seq<int>)
    requires IsChain(fat, cs)
    ensures cs != [] && |fat| <= BAD && forall i :: 0 <= i < |cs| ==> 2 <= cs[i] < |fat|
    ensures !IsError(Val(fat, cs[|cs| - 1]))
  {
  }

  lemma FreeApart(fat: Fat, cs: seq<int>, t: int)
    requires IsChain(fat, cs) && 2 <= t < |fat| && Val(fat, t) == EMPTY
    ensures t !in cs
  {
    forall i | 0 <= i < |cs| ensures Val(fat, cs[i]) != EMPTY {
      if i < |cs| - 1 {
        assert Val(fat, cs[i]) == cs[i + 1];
      }
    }
  }

  /** Taking a free cluster after the last one of a chain makes the chain longer by that cluster. */
  lemma ChainGrows(fat: Fat, cs: seq<int>, t: int)
    requires IsChain(fat, cs) && 2 <= t < |fat| && Val(fat, t) == EMPTY
    ensures IsChain(Taken(fat, cs[|cs| - 1], t), cs + [t])
  {
    FreeApart(fat, cs, t);
    var fat' := Taken(fat, cs[|cs| - 1], t);
    forall i | 0 <= i < |cs| - 1 ensures Val(fat', cs[i]) == cs[i + 1] {
    }
    assert Val(fat', cs[|cs| - 1]) == t;
    assert Val(fat', t) == LAST;
  }

  lemma OneChain(fat: Fat, t: int)
    requires 2 <= t < |fat| <= BAD
    ensures IsChain(Taken(fat, 0, t), [t])
  {
    assert Val(Taken(fat, 0, t), t) == LAST;
  }

  /** Emptying a chain takes exactly that chain out. */
  lemma ReleaseKeeps(fat: Fat, fat': Fat, css: seq<seq<int>>, a: nat)
    requires Live(fat, css) && a < |css| && Emptied(fat, fat', css[a])
    ensures Live(fat', css[..a] + css[a + 1..])
  {
    hide IsChain;
    var css' := css[..a] + css[a + 1..];
    forall b | 0 <= b < |css| && b != a ensures IsChain(fat', css[b]) {
      if a < b {
        assert Apart(css[a], css[b]);
      } else {
        assert Apart(css[b], css[a]);
      }
      ChainFacts(fat, css[b]);
      ChainUntouched(fat, fat', css[b]);
    }
    forall b | 0 <= b < |css'| ensures css'[b] == css[if b < a then b else b + 1] {
    }
    forall c | 2 <= c < |fat'| && !IsError(Val(fat', c)) ensures Owned(css', c) {
      StillOwned(fat, fat', css, a, c);
    }
  }

  lemma StillOwned(fat: Fat, fat': Fat, css: seq<seq<int>>, a: nat, c: int)
    requires Live(fat, css) && a < |css| && Emptied(fat, fat', css[a]) && 2 <= c < |fat| && !IsError(Val(fat', c))
    ensures Owned(css[..a] + css[a + 1..], c)
  {
    hide IsChain;
    var css' := css[..a] + css[a + 1..];
    assert c !in css[a] && Val(fat', c) == Val(fat, c);
    var b :| 0 <= b < |css| && c in css[b];
    assert css'[if b < a then b else b - 1] == css[b];
  }

  // ---- growing a chain ----

  /** The table after clusters have been taken to lengthen one run of clusters, or to begin one. */
  ghost predicate Grown(fat: Fat, fat': Fat, cs: seq<int>, cs': seq<int>) {
    && |fat'| == |fat| && cs <= cs' && IsRun(fat', cs')
    && (|cs'| > |cs| ==> IsLast(Val(fat', cs'[|cs'| - 1])))
    && (forall i :: |cs| <= i < |cs'| ==> Val(fat, cs'[i]) == EMPTY)
    && (forall c :: 0 <= c < |fat| && c !in cs'[|cs|..] && (|cs'| == |cs| || cs == [] || c != cs[|cs| - 1]) ==>
      fat'[c] == fat[c])
  }

  lemma GrownNot(fat: Fat, cs: seq<int>)
    requires IsRun(fat, cs)
    ensures Grown(fat, fat, cs, cs)
  {
  }

  lemma GrownFirst(fat: Fat, t: int)
    requires 2 <= t < |fat| <= BAD && Val(fat, t) == EMPTY
    ensures Grown(fat, Taken(fat, 0, t), [], [t])
  {
    OneChain(fat, t);
  }

  lemma GrownMore(fat: Fat, fat': Fat, cs: seq<int>, cs': seq<int>, t: int)
    requires Grown(fat, fat', cs, cs') && (cs == [] ==> cs' != []) && IsLast(Val(fat', cs'[|cs'| - 1]))
    requires 2 <= t < |fat| && Val(fat', t) == EMPTY
    ensures Grown(fat, Taken(fat', cs'[|cs'| - 1], t), cs, cs' + [t])
  {
    var last := cs'[|cs'| - 1];
    ChainGrows(fat', cs', t);
    FreeApart(fat', cs', t);
    hide IsRun, IsChain;
    assert Val(Taken(fat', last, t), t) == LAST;
    assert |cs| < |cs'| ==> last == cs'[|cs|..][|cs'| - 1 - |cs|];
    assert |cs| == |cs'| ==> last == cs[|cs| - 1];
    assert (cs' + [t])[|cs|..] == cs'[|cs|..] + [t];
    assert cs'[|cs'| - 1] in cs';
    assert cs != [] ==> cs[|cs| - 1] == cs'[|cs| - 1];
    forall i | |cs| <= i < |cs'| + 1 ensures Val(fat, (cs' + [t])[i]) == EMPTY {
      if i == |cs'| {
        assert t !in cs'[|cs|..];
      }
    }
  }

  /** Growing one chain, or beginning one, keeps the table live and leaves all other chains as they were. */
  lemma GrownKeeps(fat: Fat, fat': Fat, css: seq<seq<int>>, a: nat, cs': seq<int>)
    requires Live(fat, css) && a < |css| && Grown(fat, fat', css[a], cs')
    ensures Live(fat', css[a := cs'])
  {
    hide IsChain;
    var cs, css' := css[a], css[a := cs'];
    ChainFacts(fat, cs);
    GrownChain(fat, fat', cs, cs');
    forall b | 0 <= b < |css| && b != a ensures IsChain(fat', css[b]) && Apart(cs', css[b]) && Apart(css[b], cs') {
      if a < b {
        assert Apart(cs, css[b]);
      } else {
        assert Apart(css[b], cs);
      }
      GrownApart(fat, fat', cs, cs', css[b]);
    }
    forall c | 2 <= c < |fat'| && !IsError(Val(fat', c)) ensures Owned(css', c) {
      if c in cs' {
        assert c in css'[a];
      } else {
        GrownElsewhere(fat, fat', cs, cs', c);
        var b :| 0 <= b < |css| && c in css[b];
        assert b != a ==> css'[b] == css[b];
      }
    }
  }

  /** Beginning a chain keeps the table live. */
  lemma BegunKeeps(fat: Fat, fat': Fat, css: seq<seq<int>>, cs': seq<int>)
    requires Live(fat, css) && Grown(fat, fat', [], cs')
    ensures Live(fat', css + [cs'])
  {
    hide IsChain;
    var css' := css + [cs'];
    GrownChain(fat, fat', [], cs');
    forall b | 0 <= b < |css| ensures IsChain(fat', css[b]) && Apart(css[b], cs') {
      GrownApart(fat, fat', [], cs', css[b]);
    }
    forall c | 2 <= c < |fat'| && !IsError(Val(fat', c)) ensures Owned(css', c) {
      if c in cs' {
        assert c in css'[|css|];
      } else {
        GrownElsewhere(fat, fat', [], cs', c);
        var b :| 0 <= b < |css| && c in css[b];
        assert css'[b] == css[b];
      }
    }
  }

  /** Taking a free cluster after the last one of a chain keeps the table live. */
  lemma TakeKeeps(fat: Fat, css: seq<seq<int>>, a: nat, t: int)
    requires Live(fat, css) && a < |css| && 2 <= t < |fat| && Val(fat, t) == EMPTY
    ensures css[a] != [] && 2 <= css[a][|css[a]| - 1] < |fat| <= BAD
    ensures Live(Taken(fat, css[a][|css[a]| - 1], t), css[a := css[a] + [t]])
  {
    assert IsChain(fat, css[a]);
    GrownNot(fat, css[a]);
    GrownMore(fat, fat, css[a], css[a], t);
    GrownKeeps(fat, Taken(fat, css[a][|css[a]| - 1], t), css, a, css[a] + [t]);
  }

  /** Taking a cluster after none begins a chain of one. */
  lemma TakeFirstKeeps(fat: Fat, css: seq<seq<int>>, t: int)
    requires Live(fat, css) && 2 <= t < |fat| <= BAD && Val(fat, t) == EMPTY
    ensures Live(Taken(fat, 0, t), css + [[t]])
  {
    GrownFirst(fat, t);
    BegunKeeps(fat, Taken(fat, 0, t), css, [t]);
  }

  lemma GrownChain(fat: Fat, fat': Fat, cs: seq<int>, cs': seq<int>)
    requires Grown(fat, fat', cs, cs') && (cs == [] || IsChain(fat, cs))
    ensures IsChain(fat', cs') && (cs != [] ==> cs[|cs| - 1] in cs')
  {
    if |cs'| == |cs| {
      assert cs' == cs;
      assert cs[|cs| - 1] !in cs'[|cs|..];
    } else if cs != [] {
      assert cs'[|cs| - 1] == cs[|cs| - 1];
    }
  }

  lemma GrownElsewhere(fat: Fat, fat': Fat, cs: seq<int>, cs': seq<int>, c: int)
    requires Grown(fat, fat', cs, cs') && 0 <= c < |fat| && c !in cs' && (cs != [] ==> cs[|cs| - 1] in cs')
    ensures fat'[c] == fat[c] && Val(fat', c) == Val(fat, c) && c !in cs
  {
    assert c !in cs'[|cs|..];
    assert cs' == cs + cs'[|cs|..];
  }

  lemma GrownApart(fat: Fat, fat': Fat, cs: seq<int>, cs': seq<int>, other: seq<int>)
    requires Grown(fat, fat', cs, cs') && IsChain(fat, other) && Apart(cs, other) && (cs == [] || IsChain(fat, cs))
    ensures IsChain(fat', other) && Apart(cs', other) && Apart(other, cs')
  {
    hide IsChain;
    GrownChain(fat, fat', cs, cs');
    ChainFacts(fat, other);
    forall i, j | 0 <= i < |cs'| && 0 <= j < |other| ensures cs'[i] != other[j] {
      if i < |cs| {
        assert cs'[i] == cs[i];
      } else {
        RunRange(fat', cs');
        FreeApart(fat, other, cs'[i]);
      }
    }
    forall j | 0 <= j < |other| ensures fat'[other[j]] == fat[other[j]] {
      assert other[j] !in cs';
      GrownElsewhere(fat, fat', cs, cs', other[j]);
    }
    ChainUntouched(fat, fat', other);
  }

  lemma RunRange(fat: Fat, cs: seq<int>)
    requires IsRun(fat, cs)
    ensures forall i :: 0 <= i < |cs| ==> 2 <= cs[i] < |fat|
  {
  }

  // ---- free entries ----

  /** Free entries from cluster h on. */
  function FreeFrom(fat: Fat, h: nat): nat
    decreases |fat| - h
  {
    if h >= |fat| then 0 else FreeFrom(fat, h + 1) + if Val(fat, h) == EMPTY then 1 else 0
  }

  lemma FreeFromNext(fat: Fat, h: nat)
    ensures FreeFrom(fat, h) > 0 ==> h < |fat|
    ensures h < |fat| ==> FreeFrom(fat, h) == FreeFrom(fat, h + 1) + if Val(fat, h) == EMPTY then 1 else 0
  {
  }

  /** Entries that are not free do not count. */
  lemma {:induction false} FreeFromLater(fat: Fat, h: nat, h': nat)
    requires h <= h' <= |fat| && forall c :: h <= c < h' ==> Val(fat, c) != EMPTY
    ensures FreeFrom(fat, h) == FreeFrom(fat, h')
    decreases h' - h
  {
    if h < h' {
      FreeFromLater(fat, h + 1, h');
    }
  }

  lemma {:induction false} FreeFromSame(fat: Fat, fat': Fat, h: nat)
    requires |fat'| == |fat| && forall c :: h <= c < |fat| ==> (Val(fat', c) == EMPTY <==> Val(fat, c) == EMPTY)
    ensures FreeFrom(fat', h) == FreeFrom(fat, h)
    decreases |fat| - h
  {
    if h < |fat| {
      FreeFromSame(fat, fat', h + 1);
    }
  }

  lemma {:induction false} FreeFromTaken(fat: Fat, fat': Fat, h: nat, t: nat)
    requires |fat'| == |fat| && h <= t < |fat| && Val(fat, t) == EMPTY && Val(fat', t) != EMPTY
    requires forall c :: h <= c < |fat| && c != t ==> (Val(fat', c) == EMPTY <==> Val(fat, c) == EMPTY)
    ensures FreeFrom(fat', h) == FreeFrom(fat, h) - 1
    decreases t - h
  {
    if h < t {
      FreeFromTaken(fat, fat', h + 1, t);
    } else {
      FreeFromSame(fat, fat', h + 1);
    }
  }

  lemma {:induction false} FreeFromFits(fat: Fat, h: nat)
    requires h <= |fat|
    ensures FreeFrom(fat, h) <= |fat| - h
    decreases |fat| - h
  {
    if h < |fat| {
      FreeFromFits(fat, h + 1);
    }
  }

  // ---- what a release visits ----

  /** Every entry names a cluster of the table, or is empty, bad or last. */
  ghost predicate InRange(fat: Fat) {
    |fat| <= BAD && forall c :: 2 <= c < |fat| ==>
      2 <= Val(fat, c) < |fat| || IsError(Val(fat, c)) || IsLast(Val(fat, c))
  }

  /** Clusters visited from start on, none twice, up to the end of the chain or to a cluster that is empty, bad or has
      been visited before. */
  ghost predicate Visited(fat: Fat, start: int, path: seq<int>) {
    && (forall i :: 0 <= i < |path| ==> 2 <= path[i] < |fat| && !IsError(Val(fat, path[i])))
    && (forall i, j :: 0 <= i < j < |path| ==> path[i] != path[j])
    && (path != [] ==> path[0] == start)
    && (forall i :: 0 <= i < |path| - 1 ==> Val(fat, path[i]) == path[i + 1] && !IsLast(Val(fat, path[i])))
  }

  /** The cluster that comes after the visited ones. */
  ghost function Following(fat: Fat, start: int, path: seq<int>): int
    requires path != [] ==> 0 <= path[|path| - 1] < |fat|
  {
    if path == [] then start else Val(fat, path[|path| - 1])
  }

  lemma VisitedNext(fat: Fat, fat': Fat, start: int, path: seq<int>, c: int)
    requires InRange(fat) && Visited(fat, start, path) && Emptied(fat, fat', path) && c == Following(fat, start, path)
    requires path != [] ==> !IsLast(Val(fat, path[|path| - 1]))
    requires 2 <= c < |fat| && !IsError(Val(fat', c))
    ensures c !in path && fat'[c] == fat[c]
    ensures IsLast(Val(fat, c)) || 2 <= Val(fat, c) < |fat|
    ensures Visited(fat, start, path + [c]) && Emptied(fat, fat'[c := EMPTY], path + [c])
  {
    assert EMPTY % 0x1000_0000 == EMPTY;
    assert c !in path;
    var p := path + [c];
    forall i | 0 <= i < |p| - 1 ensures Val(fat, p[i]) == p[i + 1] && !IsLast(Val(fat, p[i])) {
    }
  }

  /** The visited clusters have been emptied, none of them was the last of its chain, and c comes next. */
  ghost predicate Releasing(fat: Fat, fat': Fat, start: int, path: seq<int>, c: int) {
    && Visited(fat, start, path) && Emptied(fat, fat', path) && c == Following(fat, start, path) && 2 <= c < |fat|
    && (path != [] ==> !IsLast(Val(fat, path[|path| - 1])))
  }

  lemma ReleaseBegins(fat: Fat, start: int)
    requires 2 <= start < |fat|
    ensures Releasing(fat, fat, start, [], start)
  {
  }

  lemma ReleaseNext(fat: Fat, fat': Fat, start: int, path: seq<int>, c: int)
    requires InRange(fat) && Releasing(fat, fat', start, path, c) && !IsError(Val(fat', c))
    ensures |fat'| == |fat| && Val(fat', c) == Val(fat, c)
    ensures Visited(fat, start, path + [c]) && Emptied(fat, fat'[c := EMPTY], path + [c])
    ensures !IsLast(Val(fat, c)) ==> 2 <= Val(fat, c) < |fat|
    ensures !IsLast(Val(fat, c)) ==> Releasing(fat, fat'[c := EMPTY], start, path + [c], Val(fat, c))
  {
    VisitedNext(fat, fat', start, path, c);
    hide Visited, Emptied;
  }

  lemma ReleaseStops(fat: Fat, fat': Fat, start: int, path: seq<int>, c: int)
    requires Releasing(fat, fat', start, path, c) && |fat'| == |fat| && IsError(Val(fat', c))
    ensures Visited(fat, start, path) && Emptied(fat, fat', path) && c == Following(fat, start, path)
    ensures path != [] ==> !IsLast(Val(fat, path[|path| - 1]))
    ensures IsError(Val(fat, c)) || c in path
  {
  }

  /** From the start of a chain, exactly the chain is visited. */
  lemma {:induction false} ChainVisited(fat: Fat, cs: seq<int>, path: seq<int>, k: nat)
    requires IsChain(fat, cs) && Visited(fat, cs[0], path) && k <= |cs| && k <= |path|
    ensures path[..k] == cs[..k]
  {
    if k > 0 {
      ChainVisited(fat, cs, path, k - 1);
      if k > 1 {
        assert path[k - 2] == path[..k - 1][k - 2] == cs[..k - 1][k - 2];
      }
    }
  }
}
