/**
 * The write-back sector cache of one disk. What a reader should see is the logical disk: the physical sectors overlaid
 * by the cached records.
 */
module DiskCacheModule {
  import opened Machine

  const DISK_MAX_CACHE_BLOCK: nat := 4096

  type Sector = seq<byte>

  datatype Record = Record(start: int, data: seq<Sector>)

  predicate Covers(r: Record, i: int) {
    r.start <= i < r.start + |r.data|
  }

  predicate Overlaps(r: Record, start: int, n: int) {
    r.start < start + n && start < r.start + |r.data|
  }

  predicate Contains(r: Record, start: int, n: int) {
    start >= r.start && start + n <= r.start + |r.data|
  }

  /** A record contains a range exactly if it covers every sector of it, and overlaps it exactly if it covers one. */
  lemma RangesExactly(r: Record, start: int, n: int)
    requires n > 0 && |r.data| > 0
    ensures Contains(r, start, n) <==> forall i :: start <= i < start + n ==> Covers(r, i)
    ensures Overlaps(r, start, n) <==> exists i :: start <= i < start + n && Covers(r, i)
  {
    if forall i :: start <= i < start + n ==> Covers(r, i) {
      assert Covers(r, start) && Covers(r, start + n - 1);
    }
    if Overlaps(r, start, n) {
      assert Covers(r, if start < r.start then r.start else start);
    }
  }

  /** Records lie on the disk, are not empty and do not overlap each other. */
  ghost predicate Sound(records: seq<Record>, sectors: nat) {
    && (forall k :: 0 <= k < |records| ==>
      0 <= records[k].start && |records[k].data| > 0 && records[k].start + |records[k].data| <= sectors)
    && (forall j, k :: 0 <= j < k < |records| ==> !Overlaps(records[j], records[k].start, |records[k].data|))
  }

  /** Sector i as a reader should see it. */
  ghost function LogicalAt(disk: seq<Sector>, records: seq<Record>, i: nat): Sector
    requires i < |disk|
  {
    if records == [] then disk[i]
    else if Covers(records[0], i) then records[0].data[i - records[0].start]
    else LogicalAt(disk, records[1..], i)
  }

  ghost function Logical(disk: seq<Sector>, records: seq<Record>): (l: seq<Sector>)
    ensures |l| == |disk|
  {
    seq(|disk|, i requires 0 <= i < |disk| => LogicalAt(disk, records, i))
  }

  function Splice(s: seq<Sector>, start: nat, data: seq<Sector>): (r: seq<Sector>)
    requires start + |data| <= |s|
    ensures |r| == |s|
    ensures forall i :: 0 <= i < |s| ==> r[i] == if start <= i < start + |data| then data[i - start] else s[i]
  {
    s[..start] + data + s[start + |data|..]
  }

  // ---- the overlay ----

  /** The one record that covers a sector decides what is there. */
  lemma {:induction false} LogicalCovered(disk: seq<Sector>, records: seq<Record>, k: nat, i: nat)
    requires i < |disk| && k < |records| && Covers(records[k], i) && Sound(records, |disk|)
    ensures LogicalAt(disk, records, i) == records[k].data[i - records[k].start]
  {
    if k > 0 {
      assert !Overlaps(records[0], records[k].start, |records[k].data|);
      SoundTail(records, |disk|);
      LogicalCovered(disk, records[1..], k - 1, i);
    }
  }

  lemma SoundTail(records: seq<Record>, sectors: nat)
    requires Sound(records, sectors) && records != []
    ensures Sound(records[1..], sectors)
  {
  }

  lemma {:induction false} LogicalUncovered(disk: seq<Sector>, records: seq<Record>, i: nat)
    requires i < |disk| && forall k :: 0 <= k < |records| ==> !Covers(records[k], i)
    ensures LogicalAt(disk, records, i) == disk[i]
  {
    if records != [] {
      LogicalUncovered(disk, records[1..], i);
    }
  }

  /** Writing the logical contents back under the records changes nothing a reader sees. */
  lemma FlushedLogical(disk: seq<Sector>, disk': seq<Sector>, records: seq<Record>)
    requires Sound(records, |disk|) && disk' == Logical(disk, records)
    ensures Logical(disk', records) == Logical(disk, records)
  {
    forall i: nat | i < |disk| ensures LogicalAt(disk', records, i) == LogicalAt(disk, records, i) {
      if k :| 0 <= k < |records| && Covers(records[k], i) {
        LogicalCovered(disk, records, k, i);
        LogicalCovered(disk', records, k, i);
      } else {
        LogicalUncovered(disk', records, i);
        assert disk'[i] == Logical(disk, records)[i];
      }
    }
  }

  /** Updating a record in place updates the logical disk on exactly that range. */
  lemma RecordWritten(disk: seq<Sector>, records: seq<Record>, k: nat, start: nat, data: seq<Sector>)
    requires Sound(records, |disk|) && k < |records| && Contains(records[k], start, |data|)
    ensures
      var r := records[k];
      var records' := records[k := r.(data := Splice(r.data, start - r.start, data))];
      && start + |data| <= |disk| && Sound(records', |disk|)
      && Logical(disk, records') == Splice(Logical(disk, records), start, data)
  {
    var r := records[k];
    var records' := records[k := r.(data := Splice(r.data, start - r.start, data))];
    SoundWritten(records, |disk|, k, start, data);
    forall i: nat | i < |disk| ensures Logical(disk, records')[i] == Splice(Logical(disk, records), start, data)[i] {
      RecordWrittenAt(disk, records, records', k, start, data, i);
    }
  }

  lemma RecordWrittenAt(disk: seq<Sector>, records: seq<Record>, records': seq<Record>, k: nat, start: nat,
    data: seq<Sector>, i: nat)
    requires Sound(records, |disk|) && Sound(records', |disk|) && k < |records| && i < |disk|
    requires Contains(records[k], start, |data|)
    requires records' == records[k := records[k].(data := Splice(records[k].data, start - records[k].start, data))]
    ensures LogicalAt(disk, records', i) ==
      if start <= i < start + |data| then data[i - start] else LogicalAt(disk, records, i)
  {
    hide LogicalAt, Sound, Splice;
    if Covers(records[k], i) {
      LogicalCovered(disk, records, k, i);
      LogicalCovered(disk, records', k, i);
    } else if j :| 0 <= j < |records| && Covers(records[j], i) {
      LogicalCovered(disk, records, j, i);
      LogicalCovered(disk, records', j, i);
    } else {
      LogicalUncovered(disk, records, i);
      LogicalUncovered(disk, records', i);
    }
  }

  lemma SoundWritten(records: seq<Record>, sectors: nat, k: nat, start: nat, data: seq<Sector>)
    requires Sound(records, sectors) && k < |records| && Contains(records[k], start, |data|)
    ensures
      var r := records[k];
      Sound(records[k := r.(data := Splice(r.data, start - r.start, data))], sectors)
  {
  }

  /** What add_cache_record leaves: the new record at the end, and the old ones that do not overlap it. */
  ghost predicate Replaced(records: seq<Record>, kept: seq<Record>, start: int, n: int) {
    && (forall r :: r in kept ==> r in records && !Overlaps(r, start, n))
    && (forall r :: r in records && !Overlaps(r, start, n) ==> r in kept)
  }

  /** Over a flushed disk, a new record that replaces the overlapping ones updates the logical disk on its range. */
  lemma RecordAdded(disk: seq<Sector>, records: seq<Record>, kept: seq<Record>, start: nat, data: seq<Sector>)
    requires Sound(records, |disk|) && disk == Logical(disk, records) && start + |data| <= |disk| && |data| > 0
    requires Replaced(records, kept, start, |data|) && Sound(kept, |disk|)
    ensures Sound(kept + [Record(start, data)], |disk|)
    ensures Logical(disk, kept + [Record(start, data)]) == Splice(disk, start, data)
  {
    var records' := kept + [Record(start, data)];
    SoundAppended(kept, |disk|, start, data);
    forall i: nat | i < |disk| ensures LogicalAt(disk, records', i) == Splice(disk, start, data)[i] {
      if start <= i < start + |data| {
        LogicalCovered(disk, records', |kept|, i);
      } else if k :| 0 <= k < |kept| && Covers(kept[k], i) {
        assert kept[k] in records;
        var j :| 0 <= j < |records| && records[j] == kept[k];
        LogicalCovered(disk, records, j, i);
        LogicalCovered(disk, records', k, i);
        assert disk[i] == Logical(disk, records)[i];
      } else {
        LogicalUncovered(disk, records', i);
      }
    }
  }

  lemma SoundAppended(kept: seq<Record>, sectors: nat, start: nat, data: seq<Sector>)
    requires Sound(kept, sectors) && start + |data| <= sectors && |data| > 0
    requires forall r :: r in kept ==> !Overlaps(r, start, |data|)
    ensures Sound(kept + [Record(start, data)], sectors)
  {
    forall k | 0 <= k < |kept| ensures !Overlaps(kept[k], start, |data|) {
      assert kept[k] in kept;
    }
  }

  class DiskCache {
    const disk: array<Sector>
    var records: seq<Record>

    ghost predicate Valid()
      reads this
    {
      Sound(records, disk.Length)
    }

    /** What a reader should see. */
    ghost function View(): seq<Sector>
      reads this, disk
    {
      Logical(disk[..], records)
    }

    constructor (disk: array<Sector>)
      ensures this.disk == disk && Valid() && records == [] && View() == disk[..]
    {
      this.disk := disk;
      records := [];
    }

    method HardwareWrite(start: nat, data: seq<Sector>)
      requires start + |data| <= disk.Length
      modifies disk
      ensures disk[..] == Splice(old(disk[..]), start, data)
    {
      for i := 0 to |data|
        invariant forall j :: start <= j < start + i ==> disk[j] == data[j - start]
        invariant forall j :: 0 <= j < disk.Length && !(start <= j < start + i) ==> disk[j] == old(disk[j])
      {
        disk[start + i] := data[i];
      }
    }

    /** disk_get_covering: the first record that holds the whole range, or -1. */
    method GetCovering(start: nat, n: nat) returns (k: int)
      ensures -1 <= k < |records|
      ensures k >= 0 ==> Contains(records[k], start, n)
      ensures k == -1 ==> forall j :: 0 <= j < |records| ==> !Contains(records[j], start, n)
    {
      k := 0;
      while k < |records|
        invariant 0 <= k <= |records| && forall j :: 0 <= j < k ==> !Contains(records[j], start, n)
      {
        if Contains(records[k], start, n) {
          return;
        }
        k := k + 1;
      }
      k := -1;
    }

    /** disk_flush_cache_sync: the physical disk becomes the logical one, and the records stay. */
    method Flush()
      requires Valid()
      modifies disk
      ensures disk[..] == old(View()) && View() == old(View())
    {
      ghost var disk0 := disk[..];
      for k := 0 to |records|
        invariant forall i: nat :: i < disk.Length ==> disk[i] == LogicalAt(disk0, records[..k], i)
      {
        ghost var before := disk[..];
        HardwareWrite(records[k].start, records[k].data);
        forall i: nat | i < disk.Length ensures disk[i] == LogicalAt(disk0, records[..k + 1], i) {
          assert before[i] == LogicalAt(disk0, records[..k], i);
          FlushStep(disk0, records, k, i);
        }
      }
      assert records[..|records|] == records;
      assert disk[..] == Logical(disk0, records);
      FlushedLogical(disk0, disk[..], records);
    }

    /** disk_add_cache_record_sync for data of at most 4096 sectors: flush, drop the overlapping records, append. */
    method AddRecord(start: nat, data: seq<Sector>)
      requires Valid() && 0 < |data| <= DISK_MAX_CACHE_BLOCK && start + |data| <= disk.Length
      modifies this`records, disk
      ensures Valid() && View() == Splice(old(View()), start, data) && disk[..] == old(View())
      ensures Record(start, data) in records
    {
      Flush();
      ghost var flushed := records;
      DropOverlapping(start, |data|);
      RecordAdded(disk[..], flushed, records, start, data);
      records := records + [Record(start, data)];
    }

    method DropOverlapping(start: nat, n: nat)
      requires Valid()
      modifies this`records
      ensures Valid() && Replaced(old(records), records, start, n)
    {
      hide Sound;
      var k := 0;
      while k < |records|
        invariant k <= |records| && Valid()
        invariant forall j :: 0 <= j < k ==> !Overlaps(records[j], start, n)
        invariant forall r :: r in records ==> r in old(records)
        invariant forall r :: r in old(records) && !Overlaps(r, start, n) ==> r in records
        decreases |records| - k
      {
        if Overlaps(records[k], start, n) {
          DropOne(records, k);
          DropSound(records, k, disk.Length);
          records := records[..k] + records[k + 1..];
        } else {
          k := k + 1;
        }
      }
      forall r | r in records ensures !Overlaps(r, start, n) {
        var j :| 0 <= j < |records| && records[j] == r;
      }
    }

    /** disk_read_sync of sectors on the disk. A miss returns the physical sectors, and if they fit a record they
        become the logical ones. */
    method Read(start: nat, n: nat) returns (data: seq<Sector>)
      requires Valid() && n > 0 && start + n <= disk.Length
      modifies this`records, disk
      ensures Valid() && |data| == n
      ensures
        var covered := exists k :: 0 <= k < |old(records)| && Contains(old(records)[k], start, n);
        && data == (if covered then old(View())[start..start + n] else old(disk[start..start + n]))
        && View() == (if covered || n > DISK_MAX_CACHE_BLOCK then old(View()) else Splice(old(View()), start, data))
        && (if covered || n > DISK_MAX_CACHE_BLOCK then records == old(records) && disk[..] == old(disk[..])
          else Record(start, data) in records && disk[..] == old(View()))
    {
      var k := GetCovering(start, n);
      if k == -1 {
        data := disk[start..start + n];
        if n <= DISK_MAX_CACHE_BLOCK {
          AddRecord(start, data);
        }
      } else {
        var r := records[k];
        data := r.data[start - r.start..][..n];
        forall i | start <= i < start + n ensures View()[i] == data[i - start] {
          LogicalCovered(disk[..], records, k, i);
        }
      }
    }

    /** disk_write_sync of sectors on the disk. */
    method Write(start: nat, data: seq<Sector>)
      requires Valid() && |data| > 0 && start + |data| <= disk.Length
      modifies this`records, disk
      ensures Valid()
      ensures
        var covered := exists k :: 0 <= k < |old(records)| && Contains(old(records)[k], start, |data|);
        if covered || |data| <= DISK_MAX_CACHE_BLOCK then View() == Splice(old(View()), start, data)
        else View() == Logical(Splice(old(disk[..]), start, data), old(records))
      ensures
        var covered := exists k :: 0 <= k < |old(records)| && Contains(old(records)[k], start, |data|);
        if covered then disk[..] == old(disk[..])
        else if |data| <= DISK_MAX_CACHE_BLOCK then
          Record(start, data) in records && disk[..] == Logical(Splice(old(disk[..]), start, data), old(records))
        else records == old(records) && disk[..] == Splice(old(disk[..]), start, data)
    {
      var k := GetCovering(start, |data|);
      if k == -1 {
        WriteThrough(start, data);
      } else {
        RecordWritten(disk[..], records, k, start, data);
        var r := records[k];
        records := records[k := r.(data := Splice(r.data, start - r.start, data))];
      }
    }

    /** The miss half of disk_write_sync. */
    method WriteThrough(start: nat, data: seq<Sector>)
      requires Valid() && |data| > 0 && start + |data| <= disk.Length
      modifies this`records, disk
      ensures Valid()
      ensures |data| <= DISK_MAX_CACHE_BLOCK ==> View() == Splice(old(View()), start, data)
      ensures |data| > DISK_MAX_CACHE_BLOCK ==> View() == Logical(Splice(old(disk[..]), start, data), old(records))
      ensures
        if |data| <= DISK_MAX_CACHE_BLOCK then
          Record(start, data) in records && disk[..] == Logical(Splice(old(disk[..]), start, data), old(records))
        else records == old(records) && disk[..] == Splice(old(disk[..]), start, data)
    {
      ghost var disk0 := disk[..];
      HardwareWrite(start, data);
      if |data| <= DISK_MAX_CACHE_BLOCK {
        SplicedTwice(disk0, records, start, data);
        AddRecord(start, data);
      }
    }
  }

  lemma FlushStep(disk: seq<Sector>, records: seq<Record>, k: nat, i: nat)
    requires Sound(records, |disk|) && k < |records| && i < |disk|
    ensures LogicalAt(disk, records[..k + 1], i) ==
      if Covers(records[k], i) then records[k].data[i - records[k].start] else LogicalAt(disk, records[..k], i)
  {
    hide LogicalAt;
    if Covers(records[k], i) {
      LogicalCovered(disk, records[..k + 1], k, i);
    } else if j :| 0 <= j < k && Covers(records[j], i) {
      LogicalCovered(disk, records[..k + 1], j, i);
      LogicalCovered(disk, records[..k], j, i);
    } else {
      LogicalUncovered(disk, records[..k + 1], i);
      LogicalUncovered(disk, records[..k], i);
    }
  }

  lemma DropSound(records: seq<Record>, k: nat, sectors: nat)
    requires Sound(records, sectors) && k < |records|
    ensures Sound(records[..k] + records[k + 1..], sectors)
  {
  }

  lemma DropOne(records: seq<Record>, k: nat)
    requires k < |records|
    ensures forall r :: r in records ==> r == records[k] || r in records[..k] + records[k + 1..]
    ensures forall r :: r in records[..k] + records[k + 1..] ==> r in records
  {
    assert records == records[..k] + [records[k]] + records[k + 1..];
  }

  /** Data that goes to the disk first and then into a record shows up once, whatever older records lay there. */
  lemma SplicedTwice(disk: seq<Sector>, records: seq<Record>, start: nat, data: seq<Sector>)
    requires Sound(records, |disk|) && start + |data| <= |disk|
    ensures
      Splice(Logical(Splice(disk, start, data), records), start, data) == Splice(Logical(disk, records), start, data)
  {
    var disk' := Splice(disk, start, data);
    forall i: nat | i < |disk| && !(start <= i < start + |data|)
      ensures LogicalAt(disk', records, i) == LogicalAt(disk, records, i)
    {
      if k :| 0 <= k < |records| && Covers(records[k], i) {
        LogicalCovered(disk, records, k, i);
        LogicalCovered(disk', records, k, i);
      } else {
        LogicalUncovered(disk, records, i);
        LogicalUncovered(disk', records, i);
      }
    }
  }

  // ---- when reads and large writes are exact ----

  /** Some record holds other data for sector i than the disk. */
  ghost predicate Dirty(disk: seq<Sector>, records: seq<Record>, i: int) {
    0 <= i < |disk| && exists k ::
      0 <= k < |records| && Covers(records[k], i) && records[k].data[i - records[k].start] != disk[i]
  }

  /** A missing read is right, and leaves the logical disk alone, exactly when no sector of it is dirty. */
  lemma ReadMissExact(disk: seq<Sector>, records: seq<Record>, start: nat, n: nat)
    requires Sound(records, |disk|) && start + n <= |disk|
    ensures disk[start..start + n] == Logical(disk, records)[start..start + n] <==>
      forall i :: start <= i < start + n ==> !Dirty(disk, records, i)
    ensures Splice(Logical(disk, records), start, disk[start..start + n]) == Logical(disk, records) <==>
      forall i :: start <= i < start + n ==> !Dirty(disk, records, i)
  {
    var view := Logical(disk, records);
    forall i: nat | i < |disk| ensures disk[i] != view[i] <==> Dirty(disk, records, i) {
      DirtySector(disk, records, i);
    }
    var miss := Splice(view, start, disk[start..start + n]);
    assert forall i :: start <= i < start + n ==>
      disk[start..start + n][i - start] == disk[i] && view[start..start + n][i - start] == view[i];
    assert forall i :: start <= i < start + n ==> miss[i] == disk[i];
  }

  lemma DirtySector(disk: seq<Sector>, records: seq<Record>, i: nat)
    requires Sound(records, |disk|) && i < |disk|
    ensures Logical(disk, records)[i] != disk[i] <==> Dirty(disk, records, i)
  {
    if k :| 0 <= k < |records| && Covers(records[k], i) {
      forall j | 0 <= j < |records| && Covers(records[j], i)
        ensures LogicalAt(disk, records, i) == records[j].data[i - records[j].start]
      {
        LogicalCovered(disk, records, j, i);
      }
    } else {
      LogicalUncovered(disk, records, i);
    }
  }

  /** A write of more than 4096 sectors that no record covers bypasses the cache. It updates the logical disk for
      every content exactly when it overlaps no record. */
  lemma LargeWriteExact(disk: seq<Sector>, records: seq<Record>, start: nat, n: nat)
    requires Sound(records, |disk|) && 0 < n && start + n <= |disk|
    ensures (forall data: seq<Sector> :: |data| == n ==>
        Logical(Splice(disk, start, data), records) == Splice(Logical(disk, records), start, data))
      <==> forall k :: 0 <= k < |records| ==> !Overlaps(records[k], start, n)
  {
    if k :| 0 <= k < |records| && Overlaps(records[k], start, n) {
      LargeWriteStale(disk, records, start, n, k);
    } else {
      forall data: seq<Sector> | |data| == n
        ensures Logical(Splice(disk, start, data), records) == Splice(Logical(disk, records), start, data)
      {
        LargeWriteDisjoint(disk, records, start, data);
      }
    }
  }

  lemma LargeWriteDisjoint(disk: seq<Sector>, records: seq<Record>, start: nat, data: seq<Sector>)
    requires Sound(records, |disk|) && start + |data| <= |disk|
    requires forall k :: 0 <= k < |records| ==> !Overlaps(records[k], start, |data|)
    ensures Logical(Splice(disk, start, data), records) == Splice(Logical(disk, records), start, data)
  {
    SplicedTwice(disk, records, start, data);
    forall i: nat | start <= i < start + |data|
      ensures LogicalAt(Splice(disk, start, data), records, i) == data[i - start]
    {
      LogicalUncovered(Splice(disk, start, data), records, i);
    }
  }

  /** Record k hides what a large write puts under it. */
  lemma LargeWriteStale(disk: seq<Sector>, records: seq<Record>, start: nat, n: nat, k: nat)
    requires Sound(records, |disk|) && 0 < n && start + n <= |disk| && k < |records| && Overlaps(records[k], start, n)
    ensures exists data: seq<Sector> ::
      && |data| == n
      && Logical(Splice(disk, start, data), records) != Splice(Logical(disk, records), start, data)
  {
    var r := records[k];
    var i: nat := if start < r.start then r.start else start;
    var cached := r.data[i - r.start];
    var data := seq(n, _ => cached + [0]);
    LogicalCovered(Splice(disk, start, data), records, k, i);
    assert data[i - start] != cached;
    assert Splice(Logical(disk, records), start, data)[i] == data[i - start];
    assert Logical(Splice(disk, start, data), records)[i] == cached;
  }

  /** The hazard is real: sector 1 is rewritten in the cache, and a read across the edge of its record loses it. */
  lemma StaleReadExample(a: Sector, b: Sector, c: Sector)
    requires b != c
    ensures
      var disk, records := [a, b, a], [Record(0, [a, c])];
      && Sound(records, |disk|) && Logical(disk, records)[1] == c && disk[1..3] == [b, a]
      && Splice(Logical(disk, records), 1, disk[1..3])[1] == b
  {
    var disk, records := [a, b, a], [Record(0, [a, c])];
    LogicalCovered(disk, records, 0, 1);
  }
}
