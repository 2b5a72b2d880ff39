/** The physical frame allocator: a bitmap over the frames of RAM. Frames are named by number (address / 4096). */
module PhysMem {
  import opened Bitmaps

  const FRAME_SIZE: nat := 4096
  /** `KERNEL_STATIC_MEM_START & 0xFFC00000`. */
  const KERNEL_START: nat := 0xC000_0000

  /** The frames of the kernel image, which the bitmap does not describe. */
  function KernelFrames(kernelEnd: nat): (n: nat)
    requires KERNEL_START <= kernelEnd
    ensures n * 4096 >= kernelEnd - 0xC000_0000 > (n - 1) * 4096
  {
    PagesOf(kernelEnd - KERNEL_START)
  }

  /** The pages that hold `size` bytes. */
  function PagesOf(size: nat): (n: nat)
    ensures n * FRAME_SIZE >= size > (n - 1) * FRAME_SIZE
  {
    if size % FRAME_SIZE != 0 then size / FRAME_SIZE + 1 else size / FRAME_SIZE
  }

  /** The first address of the page that holds address `a`: `a & 0xFFFFF000`. */
  function PageBase(a: nat): (r: nat)
    ensures r % FRAME_SIZE == 0 && r <= a < r + FRAME_SIZE && (a / FRAME_SIZE > 0 ==> r > 0)
  {
    a / FRAME_SIZE * FRAME_SIZE
  }

  class FrameAllocator {
    const bitmap: Bitmap

    ghost predicate Valid()
      reads bitmap, bitmap.words
    {
      bitmap.Valid() && bitmap.deadZone > 0 && bitmap.len <= 0x10_0000
    }

    /** `X86PhysMemMgrInit`. */
    constructor (ramSize: nat, kernelEnd: nat, words: array<bv32>)
      requires KERNEL_START <= kernelEnd && words.Length == 0x10_0000 / 32
      requires KernelFrames(kernelEnd) + 1 <= ramSize / FRAME_SIZE <= 0x10_0000
      modifies words
      ensures Valid() && bitmap.marked == {} && bitmap.words == words && fresh(bitmap)
      ensures bitmap.len == ramSize / FRAME_SIZE && bitmap.deadZone == KernelFrames(kernelEnd) + 1
    {
      bitmap := new Bitmap(words, ramSize / FRAME_SIZE, KernelFrames(kernelEnd) + 1, false);
    }

    /** `X86PhysAllocateFrame`: the lowest free frame, or 0 if there is none. */
    method AllocateFrame() returns (frame: nat)
      requires Valid()
      modifies bitmap, bitmap.words
      ensures Valid()
      ensures frame == 0 ==> bitmap.marked == old(bitmap.marked) && forall f :: bitmap.deadZone <= f < bitmap.len ==> f in bitmap.marked
      ensures frame != 0 ==> bitmap.deadZone <= frame < bitmap.len && frame !in old(bitmap.marked)
      ensures frame != 0 ==> bitmap.marked == old(bitmap.marked) + {frame}
      ensures frame != 0 ==> forall f :: bitmap.deadZone <= f < frame ==> f in old(bitmap.marked)
    {
      ghost var before := bitmap.marked;
      var k := bitmap.AllocateInBitmap(1);
      OneFrame(before, bitmap.deadZone, bitmap.len, k);
      if k == INVALID {
        return 0;
      }
      return k;
    }

    /** `X86PhysFreeFrame`. */
    method FreeFrame(frame: nat)
      requires Valid() && bitmap.deadZone <= frame < bitmap.len
      modifies bitmap, bitmap.words
      ensures Valid() && bitmap.marked == old(bitmap.marked) - {frame}
    {
      bitmap.FreeInBitmap(frame, 1);
      RangeGrows(frame, 0);
    }
  }

  lemma OneFrame(marked: set<nat>, dead: nat, len: nat, k: nat)
    requires SearchAnswer(marked, dead, len, 1, k)
    ensures Range(k, 1) == {k}
    ensures k == INVALID ==> forall f :: dead <= f < len ==> f in marked
    ensures k != INVALID ==> dead <= k < len && k !in marked && forall f :: dead <= f < k ==> f in marked
  {
    RangeGrows(k, 0);
    if k == INVALID {
      forall f | dead <= f < len
        ensures f in marked
      {
        assert !FreeRun(marked, dead, len, f, 1);
      }
    } else {
      forall f | dead <= f < k
        ensures f in marked
      {
        assert !FreeRun(marked, dead, len, f, 1);
      }
    }
  }
}
