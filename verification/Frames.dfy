/** The physical frame manager: a bitmap of frames in use beside a count of the page-table entries naming each frame. */
module Frames {
  import opened Machine
  import opened BitmapModule

  const PAGE_SIZE: nat := 4096
  /** Frames below this one belong to the kernel and are never given back (KERNEL_END - RAM_VIRTUAL_START). */
  const FIRST_USER_FRAME: nat := 0x400_0000 / PAGE_SIZE

  class FrameManager {
    const bitmap: Bitmap
    const count: array<nat>
    const allocStart: uint32

    ghost predicate Valid()
      reads this, bitmap, bitmap.buff, count
    {
      && bitmap.Valid() && count.Length == bitmap.bitsCount && count.Length <= TWO_32 / PAGE_SIZE
      && (count as object) != bitmap.buff
      && forall f :: 0 <= f < count.Length ==> (BitAt(bitmap.buff[..], f) <==> count[f] > 0)
    }

    constructor (frames: uint32, start: uint32)
      requires frames <= TWO_32 / PAGE_SIZE
      ensures Valid() && fresh(bitmap) && fresh(bitmap.buff) && fresh(count)
      ensures allocStart == start && count.Length == frames && forall f :: 0 <= f < frames ==> count[f] == 0
    {
      var b := new Bitmap(frames);
      bitmap := b;
      count := new nat[frames](_ => 0);
      allocStart := start;
    }

    /** First fit from allocStart on; false is the PANIC of a full memory. */
    method AllocFrame() returns (ok: bool, addr: uint32)
      requires Valid()
      modifies bitmap.buff, count
      ensures Valid()
      ensures ok ==>
        var f := addr / PAGE_SIZE;
        && addr % PAGE_SIZE == 0 && allocStart <= f < count.Length && old(count[f]) == 0
        && (forall g :: allocStart <= g < f ==> old(count[g]) > 0)
        && count[..] == old(count[..])[f := 1]
      ensures !ok ==> count[..] == old(count[..]) && forall g :: allocStart <= g < count.Length ==> count[g] > 0
    {
      hide BitAt;
      ghost var words := bitmap.buff[..];
      var i := bitmap.AllocInterval(allocStart, 1);
      if i >= bitmap.bitsCount {
        forall g | allocStart <= g < count.Length ensures count[g] > 0 {
          assert !Fits(words, bitmap.bitsCount, g, 1);
        }
        return false, 0;
      }
      forall g | allocStart <= g < i ensures count[g] > 0 {
        assert !Fits(words, bitmap.bitsCount, g, 1);
      }
      count[i] := count[i] + 1;
      return true, i * PAGE_SIZE;
    }

    /** One reference less; the last one frees the frame, unless it is the kernel's own, which is a PANIC. */
    method FreeFrame(addr: uint32) returns (ok: bool)
      requires Valid() && addr / PAGE_SIZE < count.Length && count[addr / PAGE_SIZE] > 0
      modifies bitmap.buff, count
      ensures ok <==> old(count[addr / PAGE_SIZE]) > 1 || addr / PAGE_SIZE >= FIRST_USER_FRAME
      ensures ok ==> Valid() && count[..] == old(count[..])[addr / PAGE_SIZE := old(count[addr / PAGE_SIZE]) - 1]
    {
      hide BitAt;
      var i := addr / PAGE_SIZE;
      count[i] := count[i] - 1;
      if count[i] != 0 {
        return true;
      }
      if addr < FIRST_USER_FRAME * PAGE_SIZE {
        return false;
      }
      if !bitmap.TestBit(i) {
        return false;
      }
      bitmap.ClearBit(i);
      return true;
    }

    /** One reference more; a frame beyond memory is a PANIC. */
    method SetAlloced(addr: uint32) returns (ok: bool)
      requires Valid()
      modifies bitmap.buff, count
      ensures Valid() && (ok <==> addr / PAGE_SIZE < count.Length)
      ensures count[..] ==
        if ok then old(count[..])[addr / PAGE_SIZE := old(count[addr / PAGE_SIZE]) + 1] else old(count[..])
    {
      hide BitAt;
      var i := addr / PAGE_SIZE;
      if i >= bitmap.bitsCount {
        return false;
      }
      count[i] := count[i] + 1;
      bitmap.SetBit(i);
      return true;
    }
  }
}
