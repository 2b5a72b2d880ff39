/**
The layout of the liballoc heap as a value: page-backed regions ("majors"), each holding an
address-ordered sequence of blocks ("minors"), and the gaps between them.
Header sizes are those of i686, where both headers take 24 bytes.
*/
module HeapLayout {
  const HEADER: nat := 24
  const PAGE_SIZE: nat := 4096
  const MIN_PAGES: nat := 16
  const ALIGNMENT: nat := 16
  const ALIGN_INFO: nat := 16
  const ADDRESS_SPACE: nat := 0x1_0000_0000

  datatype Block = Block(addr: nat, size: nat, req: nat) {
    /** First address after the block's header and bytes. */
    function End(): nat {
      addr + HEADER + size
    }

    /** The pointer `ALIGN` produces: room for the tag, then up to the next multiple of 16. */
    function Payload(): nat {
      var p := addr + HEADER + ALIGN_INFO;
      if p % ALIGNMENT == 0 then p else p + (ALIGNMENT - p % ALIGNMENT)
    }

    /** Where `ALIGN` stores the distance from the block's bytes to its payload. */
    function TagAt(): nat {
      Payload() - ALIGN_INFO
    }

    function Tag(): nat {
      Payload() - (addr + HEADER)
    }
  }

  datatype Region = Region(addr: nat, pages: nat, blocks: seq<Block>) {
    function Size(): nat {
      pages * PAGE_SIZE
    }

    function End(): nat {
      addr + Size()
    }

    /** Gap `j` lies in front of block `j`; the last gap is the tail of the region. */
    function GapStart(j: nat): nat
      requires j <= |blocks|
    {
      if j == 0 then addr + HEADER else blocks[j - 1].End()
    }

    function GapEnd(j: nat): nat
      requires j <= |blocks|
    {
      if j == |blocks| then End() else blocks[j].addr
    }

    function Gap(j: nat): int
      requires j <= |blocks|
    {
      GapEnd(j) - GapStart(j)
    }

    predicate Fits(j: nat, need: nat)
      requires j <= |blocks|
    {
      Gap(j) >= need
    }

    ghost predicate NoGapFits(need: nat) {
      forall j: nat :: j <= |blocks| ==> !Fits(j, need)
    }

    /** `usage` of the major. */
    function Usage(): nat {
      HEADER + Used(blocks)
    }

    /** `size - usage`. */
    function FreeBytes(): int {
      Size() - Usage()
    }

    function Insert(j: nat, b: Block): Region
      requires j <= |blocks|
    {
      this.(blocks := blocks[..j] + [b] + blocks[j..])
    }

    /** In-place `realloc`: block `j` keeps its place and size and records a new request. */
    function Resize(j: nat, req: nat): Region
      requires j < |blocks|
    {
      this.(blocks := blocks[j := blocks[j].(req := req)])
    }

    function Remove(j: nat): Region
      requires j < |blocks|
    {
      this.(blocks := blocks[..j] + blocks[j + 1..])
    }

    /** Blocks are sorted, disjoint and inside the region, after its header; each block holds its request. */
    ghost predicate Ok() {
      addr > 0 && pages > 0 && End() <= ADDRESS_SPACE &&
      (forall j: nat :: j <= |blocks| ==> Gap(j) >= 0) &&
      (forall j: nat :: j < |blocks| ==> blocks[j].req + ALIGNMENT + ALIGN_INFO <= blocks[j].size)
    }
  }

  /** Bytes taken by blocks, headers included. */
  function Used(blocks: seq<Block>): nat {
    if blocks == [] then 0 else Used(blocks[..|blocks| - 1]) + HEADER + blocks[|blocks| - 1].size
  }

  lemma {:induction false} UsedConcat(a: seq<Block>, b: seq<Block>)
    ensures Used(a + b) == Used(a) + Used(b)
  {
    if b == [] {
      assert a + b == a;
    } else {
      UsedConcat(a, b[..|b| - 1]);
      assert (a + b)[..|a + b| - 1] == a + b[..|b| - 1];
    }
  }

  lemma UsedOne(b: Block)
    ensures Used([b]) == HEADER + b.size
  {
    assert [b][..0] == [];
  }

  lemma UsedAfterInsert(r: Region, j: nat, b: Block)
    requires j <= |r.blocks|
    ensures Used(r.Insert(j, b).blocks) == Used(r.blocks) + HEADER + b.size
  {
    UsedOne(b);
    UsedConcat(r.blocks[..j], [b]);
    UsedConcat(r.blocks[..j] + [b], r.blocks[j..]);
    UsedConcat(r.blocks[..j], r.blocks[j..]);
    assert r.blocks == r.blocks[..j] + r.blocks[j..];
  }

  lemma UsedAfterRemove(r: Region, j: nat)
    requires j < |r.blocks|
    ensures Used(r.blocks) == Used(r.Remove(j).blocks) + HEADER + r.blocks[j].size
  {
    InsertUndoesRemove(r, j);
    UsedAfterInsert(r.Remove(j), j, r.blocks[j]);
  }

  lemma InsertUndoesRemove(r: Region, j: nat)
    requires j < |r.blocks|
    ensures r.Remove(j).Insert(j, r.blocks[j]) == r
  {
    assert r.Remove(j).blocks[..j] == r.blocks[..j];
    assert r.Remove(j).blocks[j..] == r.blocks[j + 1..];
  }

  lemma RemoveUndoesInsert(r: Region, j: nat, b: Block)
    requires j <= |r.blocks|
    ensures r.Insert(j, b).Remove(j) == r
  {
    assert r.Insert(j, b).blocks[..j] == r.blocks[..j];
    assert r.Insert(j, b).blocks[j + 1..] == r.blocks[j..];
  }

  /** Sum of the first `k` gaps. */
  function SumOfGaps(r: Region, k: nat): int
    requires k <= |r.blocks| + 1
  {
    if k == 0 then 0 else SumOfGaps(r, k - 1) + r.Gap(k - 1)
  }

  lemma {:induction false} GapsTelescope(r: Region, k: nat)
    requires k <= |r.blocks|
    ensures SumOfGaps(r, k) + Used(r.blocks[..k]) == r.GapStart(k) - r.addr - HEADER
  {
    if k > 0 {
      GapsTelescope(r, k - 1);
      assert r.blocks[..k][..k - 1] == r.blocks[..k - 1];
    }
  }

  /** A region's gaps sum to `size - usage`. */
  lemma GapsSumToFreeBytes(r: Region)
    ensures SumOfGaps(r, |r.blocks| + 1) == r.Size() - r.Usage()
  {
    GapsTelescope(r, |r.blocks|);
    assert r.blocks[..|r.blocks|] == r.blocks;
  }

  lemma {:induction false} PartialGapSums(r: Region, k: nat, j: nat)
    requires r.Ok() && j < k <= |r.blocks| + 1
    ensures 0 <= r.Gap(j) <= SumOfGaps(r, k)
  {
    if j < k - 1 {
      PartialGapSums(r, k - 1, j);
    } else {
      GapSumsNonnegative(r, j);
    }
  }

  lemma {:induction false} GapSumsNonnegative(r: Region, k: nat)
    requires r.Ok() && k <= |r.blocks| + 1
    ensures SumOfGaps(r, k) >= 0
  {
    if k > 0 {
      GapSumsNonnegative(r, k - 1);
    }
  }

  /** Too few free bytes in all means no gap is large enough: why `malloc` may skip a region unseen. */
  lemma FreeBytesBoundGaps(r: Region, need: nat)
    requires r.Ok()
    ensures r.Usage() <= r.Size()
    ensures r.Size() - r.Usage() < need ==> r.NoGapFits(need)
  {
    GapsSumToFreeBytes(r);
    GapSumsNonnegative(r, |r.blocks| + 1);
    forall j: nat | j <= |r.blocks|
      ensures r.Gap(j) <= r.Size() - r.Usage()
    {
      PartialGapSums(r, |r.blocks| + 1, j);
    }
  }

  /** Blocks of one region follow each other without overlap. */
  lemma {:induction false} BlocksInOrder(r: Region, i: nat, j: nat)
    requires r.Ok() && i < j <= |r.blocks|
    ensures r.blocks[i].End() <= r.GapEnd(j)
  {
    assert r.Gap(j) >= 0;
    if i < j - 1 {
      BlocksInOrder(r, i, j - 1);
    }
  }

  lemma BlockInside(r: Region, j: nat)
    requires r.Ok() && j < |r.blocks|
    ensures r.addr + HEADER <= r.blocks[j].addr && r.blocks[j].End() <= r.End()
  {
    BlocksInOrder(r, j, |r.blocks|);
    assert r.Gap(j) >= 0;
    if j > 0 {
      BlocksInOrder(r, 0, j);
      assert r.Gap(0) >= 0;
    }
  }

  lemma InsertKeepsOk(r: Region, j: nat, size: nat, req: nat)
    requires r.Ok() && j <= |r.blocks| && r.Fits(j, size + HEADER)
    requires req + ALIGNMENT + ALIGN_INFO <= size
    ensures r.Insert(j, Block(r.GapStart(j), size, req)).Ok()
  {
    var b := Block(r.GapStart(j), size, req);
    var t := r.Insert(j, b);
    forall i: nat | i <= |t.blocks|
      ensures t.Gap(i) >= 0
    {
      if i < j {
        assert t.Gap(i) == r.Gap(i);
      } else if i > j + 1 {
        assert t.Gap(i) == r.Gap(i - 1);
      }
    }
  }

  lemma RemoveKeepsOk(r: Region, j: nat)
    requires r.Ok() && j < |r.blocks|
    ensures r.Remove(j).Ok()
  {
    var t := r.Remove(j);
    forall i: nat | i <= |t.blocks|
      ensures t.Gap(i) >= 0
    {
      if i < j {
        assert t.Gap(i) == r.Gap(i);
      } else if i > j {
        assert t.Gap(i) == r.Gap(i + 1);
      } else {
        assert r.Gap(j) >= 0 && r.Gap(j + 1) >= 0;
      }
    }
  }

  lemma ResizeKeepsOk(r: Region, j: nat, req: nat)
    requires r.Ok() && j < |r.blocks| && req <= r.blocks[j].req
    ensures r.Resize(j, req).Ok() && Used(r.Resize(j, req).blocks) == Used(r.blocks)
  {
    var t := r.Resize(j, req);
    forall i: nat | i <= |t.blocks|
      ensures t.Gap(i) >= 0
    {
      assert t.Gap(i) == r.Gap(i);
    }
    UsedAfterRemove(r, j);
    UsedAfterRemove(t, j);
    assert t.Remove(j) == r.Remove(j);
  }

  /** A payload is aligned, its tag and its requested bytes stay inside the block, after the header. */
  lemma PayloadInside(b: Block)
    requires b.req + ALIGNMENT + ALIGN_INFO <= b.size
    ensures b.Payload() % 16 == 0
    ensures b.addr + HEADER <= b.TagAt() < b.TagAt() + ALIGN_INFO == b.Payload()
    ensures b.Payload() + b.req <= b.End()
    ensures ALIGN_INFO <= b.Tag() < ALIGNMENT + ALIGN_INFO
    ensures b.Payload() - b.Tag() - HEADER == b.addr
  {
  }

  /** `allocate_new_page`: pages for a block of `size` bytes, both headers, at least 16. */
  function PagesFor(size: nat): (n: nat)
    ensures n >= 16
    ensures n * 4096 >= size + 24 + 24
    ensures n > 16 ==> (n - 1) * 4096 < size + 24 + 24
  {
    var st := size + HEADER + HEADER;
    var n := if st % PAGE_SIZE == 0 then st / PAGE_SIZE else st / PAGE_SIZE + 1;
    if n < MIN_PAGES then MIN_PAGES else n
  }
}
