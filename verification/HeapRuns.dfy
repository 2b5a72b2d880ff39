/**
The whole heap as a sequence of regions, what one `malloc`, `free` or `realloc` does to it,
and what holds over every run of such calls.
*/
module HeapRuns {
  import opened HeapLayout

  type View = seq<Region>

  predicate Apart(r: Region, s: Region) {
    r.End() <= s.addr || s.End() <= r.addr
  }

  /** Every region is in order and no two regions overlap. */
  ghost predicate WellFormed(v: View) {
    (forall k :: 0 <= k < |v| ==> v[k].Ok()) &&
    (forall k, m :: 0 <= k < m < |v| ==> Apart(v[k], v[m]))
  }

  ghost predicate NoneEmpty(v: View) {
    forall k :: 0 <= k < |v| ==> v[k].blocks != []
  }

  /** No front, middle or tail gap of any region can hold `need` bytes. */
  ghost predicate NoFit(v: View, need: nat) {
    forall k :: 0 <= k < |v| ==> v[k].NoGapFits(need)
  }

  predicate IsSlot(v: View, k: nat, j: nat) {
    k < |v| && j < |v[k].blocks|
  }

  /** Bytes obtained from the page provider: `l_allocated`. */
  function TotalSize(v: View): nat {
    if v == [] then 0 else TotalSize(v[..|v| - 1]) + v[|v| - 1].Size()
  }

  function SumOfSizes(blocks: seq<Block>): nat {
    if blocks == [] then 0 else SumOfSizes(blocks[..|blocks| - 1]) + blocks[|blocks| - 1].size
  }

  /** Bytes inside live blocks: `l_inuse`. */
  function InUse(v: View): nat {
    if v == [] then 0 else InUse(v[..|v| - 1]) + SumOfSizes(v[|v| - 1].blocks)
  }

  lemma {:induction false} SizesAndHeaders(blocks: seq<Block>)
    ensures Used(blocks) == SumOfSizes(blocks) + HEADER * |blocks|
  {
    if blocks != [] {
      SizesAndHeaders(blocks[..|blocks| - 1]);
    }
  }

  lemma {:induction false} TotalsConcat(v: View, w: View)
    ensures TotalSize(v + w) == TotalSize(v) + TotalSize(w)
    ensures InUse(v + w) == InUse(v) + InUse(w)
  {
    if w == [] {
      assert v + w == v;
    } else {
      TotalsConcat(v, w[..|w| - 1]);
      assert (v + w)[..|v + w| - 1] == v + w[..|w| - 1];
    }
  }

  lemma TotalsOne(r: Region)
    ensures TotalSize([r]) == r.Size() && InUse([r]) == SumOfSizes(r.blocks)
  {
    assert [r][..0] == [];
  }

  lemma TotalsAppend(v: View, r: Region)
    ensures TotalSize(v + [r]) == TotalSize(v) + r.Size()
    ensures InUse(v + [r]) == InUse(v) + SumOfSizes(r.blocks)
  {
    TotalsOne(r);
    TotalsConcat(v, [r]);
  }

  lemma TotalsRemove(v: View, k: nat)
    requires k < |v|
    ensures TotalSize(v) == TotalSize(v[..k] + v[k + 1..]) + v[k].Size()
    ensures InUse(v) == InUse(v[..k] + v[k + 1..]) + SumOfSizes(v[k].blocks)
  {
    hide TotalSize, InUse, SumOfSizes;
    TotalsAppend(v[..k], v[k]);
    TotalsConcat(v[..k] + [v[k]], v[k + 1..]);
    TotalsConcat(v[..k], v[k + 1..]);
    assert v == v[..k] + [v[k]] + v[k + 1..];
  }

  lemma TotalsUpdate(v: View, k: nat, r: Region)
    requires k < |v|
    ensures TotalSize(v[k := r]) == TotalSize(v) - v[k].Size() + r.Size()
    ensures InUse(v[k := r]) == InUse(v) - SumOfSizes(v[k].blocks) + SumOfSizes(r.blocks)
  {
    TotalsRemove(v, k);
    TotalsRemove(v[k := r], k);
    assert v[k := r][..k] == v[..k] && v[k := r][k + 1..] == v[k + 1..];
  }

  // ----- Live memory never overlaps

  /** Two different live blocks, headers included, share no address. */
  lemma BlocksApart(v: View, k: nat, j: nat, m: nat, i: nat)
    requires WellFormed(v) && IsSlot(v, k, j) && IsSlot(v, m, i) && (k, j) != (m, i)
    ensures v[k].blocks[j].End() <= v[m].blocks[i].addr || v[m].blocks[i].End() <= v[k].blocks[j].addr
  {
    if k == m {
      if j < i {
        BlocksInOrder(v[k], j, i);
      } else {
        BlocksInOrder(v[k], i, j);
      }
    } else {
      BlockInside(v[k], j);
      BlockInside(v[m], i);
      assert Apart(v[k], v[m]) || Apart(v[m], v[k]);
    }
  }

  /** Every live block by itself: its pointer is 16-byte aligned, unaligning finds its header again, its tag and its requested
      bytes lie behind its own header, inside its region, and meet no region header, its own region's included. */
  lemma PayloadMissesHeaders(v: View, k: nat, j: nat, m: nat)
    requires WellFormed(v) && IsSlot(v, k, j) && m < |v|
    ensures var b := v[k].blocks[j];
      && b.Payload() % 16 == 0
      && b.Payload() - b.Tag() - HEADER == b.addr
      && v[k].addr + HEADER <= b.addr < b.addr + HEADER <= b.TagAt() < b.Payload() <= b.Payload() + b.req <= b.End() <= v[k].End()
      && (b.Payload() + b.req <= v[m].addr || v[m].addr + HEADER <= b.TagAt())
  {
    PayloadInside(v[k].blocks[j]);
    BlockInside(v[k], j);
    if k < m {
      assert Apart(v[k], v[m]);
    } else if m < k {
      assert Apart(v[m], v[k]);
    }
  }

  /** The requested bytes of one block, with its alignment tag, meet no other block's header, tag or
      payload and no region header; the pointer is 16-byte aligned and unaligning finds the block again. */
  lemma LivePayloadsAreSafe(v: View, k: nat, j: nat, m: nat, i: nat)
    requires WellFormed(v) && IsSlot(v, k, j) && IsSlot(v, m, i) && (k, j) != (m, i)
    ensures var b, c := v[k].blocks[j], v[m].blocks[i];
      && b.Payload() % 16 == 0
      && b.Payload() - b.Tag() - HEADER == b.addr
      && b.addr + HEADER <= b.TagAt() < b.Payload() <= b.Payload() + b.req <= b.End()
      && (b.Payload() + b.req <= c.addr || c.End() <= b.TagAt())
      && (b.Payload() + b.req <= v[m].addr || v[m].addr + HEADER <= b.TagAt())
      && b.Payload() != c.Payload()
  {
    PayloadInside(v[k].blocks[j]);
    PayloadInside(v[m].blocks[i]);
    BlocksApart(v, k, j, m, i);
    BlockInside(v[k], j);
    BlockInside(v[m], i);
    if k < m {
      assert Apart(v[k], v[m]);
    } else if m < k {
      assert Apart(v[m], v[k]);
    }
  }

  // ----- One call

  /** What the page provider may answer for `pages` pages: a range apart from every live region. */
  ghost predicate GrantOk(v: View, grant: nat, pages: nat) {
    grant > 0 && grant + pages * PAGE_SIZE <= ADDRESS_SPACE &&
    forall k :: 0 <= k < |v| ==> Apart(v[k], Region(grant, pages, []))
  }

  function SizeFor(req: nat): nat {
    req + ALIGNMENT + ALIGN_INFO
  }

  function Need(req: nat): nat {
    SizeFor(req) + HEADER
  }

  /** The search starts at the best bet if that region has more than `need` bytes free, else at the root. */
  ghost predicate IsScanStart(v: View, bestBet: nat, need: nat, start: nat) {
    if start < |v| && v[start].addr == bestBet && v[start].Size() - v[start].Usage() > need then true
    else
      start == 0 &&
      forall k :: 0 <= k < |v| && v[k].addr == bestBet ==> v[k].Size() - v[k].Usage() <= need
  }

  /** Gap `j` of region `k` is the first that fits, in scan order: from `start` to the end, then from the root. */
  ghost predicate FirstFit(v: View, start: nat, need: nat, k: nat, j: nat) {
    k < |v| && j <= |v[k].blocks| && v[k].Fits(j, need) &&
    (forall i: nat :: i < j ==> !v[k].Fits(i, need)) &&
    if start <= k then forall m :: start <= m < k ==> v[m].NoGapFits(need)
    else
      (forall m :: start <= m < |v| ==> v[m].NoGapFits(need)) &&
      (forall m :: 0 <= m < k ==> v[m].NoGapFits(need))
  }

  function FreshRegion(req: nat, grant: nat): Region {
    Region(grant, PagesFor(SizeFor(req)), [Block(grant + HEADER, SizeFor(req), req)])
  }

  function NewBlock(v: View, k: nat, j: nat, req: nat): Block
    requires k < |v| && j <= |v[k].blocks|
  {
    Block(v[k].GapStart(j), SizeFor(req), req)
  }

  /** A request placed in an existing gap. */
  ghost predicate Placed(v: View, req: nat, k: nat, j: nat, p: nat, w: View) {
    k < |v| && j <= |v[k].blocks| && v[k].Fits(j, Need(req)) &&
    w == v[k := v[k].Insert(j, NewBlock(v, k, j, req))] &&
    p == NewBlock(v, k, j, req).Payload()
  }

  /** `malloc(req)`: first fit; the provider is asked only when nothing fits; null only when it refuses. */
  ghost predicate MallocStep(v: View, bestBet: nat, req: nat, grant: nat, p: nat, w: View) {
    if NoFit(v, Need(req)) then
      if grant == 0 then p == 0 && w == v
      else w == v + [FreshRegion(req, grant)] && p == FreshRegion(req, grant).blocks[0].Payload()
    else
      exists start: nat, k: nat, j: nat ::
        IsScanStart(v, bestBet, Need(req), start) && FirstFit(v, start, Need(req), k, j) && Placed(v, req, k, j, p, w)
  }

  /** Freeing the block at slot `(k, j)`; an emptied region goes back to the page provider. */
  ghost predicate Freed(v: View, k: nat, j: nat, w: View) {
    IsSlot(v, k, j) &&
    w == if |v[k].blocks| == 1 then v[..k] + v[k + 1..] else v[k := v[k].Remove(j)]
  }

  /** `free(p)` for a live pointer. */
  ghost predicate FreeStep(v: View, p: nat, w: View) {
    exists k: nat, j: nat :: IsSlot(v, k, j) && v[k].blocks[j].Payload() == p && Freed(v, k, j, w)
  }

  /** In-place `realloc(p, req)`. */
  ghost predicate ResizeStep(v: View, p: nat, req: nat, w: View) {
    exists k: nat, j: nat ::
      IsSlot(v, k, j) && v[k].blocks[j].Payload() == p && req <= v[k].blocks[j].req && w == v[k := v[k].Resize(j, req)]
  }

  /** The block at `p` was asked for with fewer than `req` bytes. */
  ghost predicate Outgrown(v: View, p: nat, req: nat) {
    exists k: nat, j: nat :: IsSlot(v, k, j) && v[k].blocks[j].Payload() == p && v[k].blocks[j].req < req
  }

  /** `realloc(p, req)` for a live pointer and a request above 0: in place exactly if the block already holds that
      much, else a `malloc` followed by a `free` of the old pointer. */
  ghost predicate ReallocStep(v: View, bestBet: nat, p: nat, req: nat, grant: nat, q: nat, w: View) {
    if Outgrown(v, p, req) then
      q != 0 && q != p && exists mid: View :: MallocStep(v, bestBet, req, grant, q, mid) && FreeStep(mid, p, w)
    else q == p && ResizeStep(v, p, req, w)
  }

  // ----- Each call keeps the heap well formed

  ghost predicate Sound(v: View) {
    WellFormed(v) && NoneEmpty(v)
  }

  lemma ReplaceKeepsWellFormed(v: View, k: nat, r: Region)
    requires WellFormed(v) && k < |v| && r.Ok() && r.addr == v[k].addr && r.pages == v[k].pages
    ensures WellFormed(v[k := r])
  {
    var w := v[k := r];
    forall a, b | 0 <= a < b < |w|
      ensures Apart(w[a], w[b])
    {
      assert Apart(v[a], v[b]);
    }
  }

  lemma AppendKeepsWellFormed(v: View, r: Region)
    requires WellFormed(v) && r.Ok() && GrantOk(v, r.addr, r.pages)
    ensures WellFormed(v + [r])
  {
    var w := v + [r];
    forall a, b | 0 <= a < b < |w|
      ensures Apart(w[a], w[b])
    {
      if b < |v| {
        assert Apart(v[a], v[b]);
      } else {
        assert Apart(v[a], Region(r.addr, r.pages, []));
      }
    }
  }

  lemma DropKeepsWellFormed(v: View, k: nat)
    requires WellFormed(v) && k < |v|
    ensures WellFormed(v[..k] + v[k + 1..])
  {
    var w := v[..k] + v[k + 1..];
    forall a, b | 0 <= a < b < |w|
      ensures Apart(w[a], w[b])
    {
      assert Apart(v[if a < k then a else a + 1], v[if b < k then b else b + 1]);
    }
  }

  lemma FreshRegionOk(req: nat, grant: nat)
    requires grant > 0 && grant + PagesFor(SizeFor(req)) * PAGE_SIZE <= ADDRESS_SPACE
    ensures FreshRegion(req, grant).Ok()
    ensures Region(grant, PagesFor(SizeFor(req)), []).Ok()
    ensures Region(grant, PagesFor(SizeFor(req)), []).Fits(0, Need(req))
    ensures Region(grant, PagesFor(SizeFor(req)), []).Insert(0, Block(grant + HEADER, SizeFor(req), req)) == FreshRegion(req, grant)
  {
    var e := Region(grant, PagesFor(SizeFor(req)), []);
    assert e.Gap(0) == e.Size() - HEADER;
    InsertKeepsOk(e, 0, SizeFor(req), req);
  }

  lemma PlacedKeepsSound(v: View, req: nat, k: nat, j: nat, p: nat, w: View)
    requires Sound(v) && Placed(v, req, k, j, p, w)
    ensures Sound(w)
  {
    InsertKeepsOk(v[k], j, SizeFor(req), req);
    ReplaceKeepsWellFormed(v, k, w[k]);
  }

  lemma MallocKeepsSound(v: View, bestBet: nat, req: nat, grant: nat, p: nat, w: View)
    requires Sound(v) && MallocStep(v, bestBet, req, grant, p, w)
    requires grant == 0 || GrantOk(v, grant, PagesFor(SizeFor(req)))
    ensures Sound(w)
  {
    if NoFit(v, Need(req)) {
      if grant != 0 {
        FreshRegionOk(req, grant);
        AppendKeepsWellFormed(v, FreshRegion(req, grant));
      }
    } else {
      var start: nat, k: nat, j: nat :| IsScanStart(v, bestBet, Need(req), start) &&
        FirstFit(v, start, Need(req), k, j) && Placed(v, req, k, j, p, w);
      PlacedKeepsSound(v, req, k, j, p, w);
    }
  }

  lemma FreedKeepsSound(v: View, k: nat, j: nat, w: View)
    requires Sound(v) && Freed(v, k, j, w)
    ensures Sound(w)
  {
    if |v[k].blocks| == 1 {
      DropKeepsWellFormed(v, k);
    } else {
      RemoveKeepsOk(v[k], j);
      ReplaceKeepsWellFormed(v, k, v[k].Remove(j));
    }
  }

  lemma ResizeKeepsSound(v: View, p: nat, req: nat, w: View)
    requires Sound(v) && ResizeStep(v, p, req, w)
    ensures Sound(w)
  {
    var k: nat, j: nat :| IsSlot(v, k, j) && v[k].blocks[j].Payload() == p && req <= v[k].blocks[j].req &&
      w == v[k := v[k].Resize(j, req)];
    ResizeKeepsOk(v[k], j, req);
    ReplaceKeepsWellFormed(v, k, w[k]);
  }

  lemma FreeKeepsSound(v: View, p: nat, w: View)
    requires Sound(v) && FreeStep(v, p, w)
    ensures Sound(w)
  {
    var k: nat, j: nat :| IsSlot(v, k, j) && v[k].blocks[j].Payload() == p && Freed(v, k, j, w);
    FreedKeepsSound(v, k, j, w);
  }

  lemma ReallocKeepsSound(v: View, bestBet: nat, p: nat, req: nat, grant: nat, q: nat, w: View)
    requires Sound(v) && ReallocStep(v, bestBet, p, req, grant, q, w)
    requires grant == 0 || GrantOk(v, grant, PagesFor(SizeFor(req)))
    ensures Sound(w)
  {
    hide MallocStep, FreeStep, ResizeStep, Sound, Outgrown;
    if !Outgrown(v, p, req) {
      ResizeKeepsSound(v, p, req, w);
    } else {
      var mid: View :| MallocStep(v, bestBet, req, grant, q, mid) && FreeStep(mid, p, w);
      MallocKeepsSound(v, bestBet, req, grant, q, mid);
      FreeKeepsSound(mid, p, w);
    }
  }

  // ----- Every run

  datatype Call =
    | Malloc(bestBet: nat, req: nat, grant: nat, p: nat)
    | Free(p: nat)
    | Realloc(bestBet: nat, p: nat, req: nat, grant: nat, q: nat)

  ghost predicate Step(v: View, c: Call, w: View) {
    match c
    case Malloc(bestBet, req, grant, p) =>
      (grant == 0 || GrantOk(v, grant, PagesFor(SizeFor(req)))) && MallocStep(v, bestBet, req, grant, p, w)
    case Free(p) => FreeStep(v, p, w)
    case Realloc(bestBet, p, req, grant, q) =>
      (grant == 0 || GrantOk(v, grant, PagesFor(SizeFor(req)))) && ReallocStep(v, bestBet, p, req, grant, q, w)
  }

  ghost predicate IsRun(calls: seq<Call>, views: seq<View>) {
    |views| == |calls| + 1 && views[0] == [] &&
    forall i :: 0 <= i < |calls| ==> Step(views[i], calls[i], views[i + 1])
  }

  /** After every sequence of calls on an empty heap the heap is well formed and holds no empty region. */
  lemma {:induction false} RunsStaySound(calls: seq<Call>, views: seq<View>, n: nat)
    requires IsRun(calls, views) && n <= |calls|
    ensures Sound(views[n])
  {
    if n > 0 {
      RunsStaySound(calls, views, n - 1);
      var v, w := views[n - 1], views[n];
      assert Step(v, calls[n - 1], w);
      match calls[n - 1]
      case Malloc(bestBet, req, grant, p) => MallocKeepsSound(v, bestBet, req, grant, p, w);
      case Free(p) =>
        FreeKeepsSound(v, p, w);
      case Realloc(bestBet, p, req, grant, q) => ReallocKeepsSound(v, bestBet, p, req, grant, q, w);
    }
  }

  // ----- free undoes malloc

  lemma PayloadNamesSlot(v: View, k: nat, j: nat, m: nat, i: nat)
    requires WellFormed(v) && IsSlot(v, k, j) && IsSlot(v, m, i)
    requires v[k].blocks[j].Payload() == v[m].blocks[i].Payload()
    ensures k == m && j == i
  {
    if (k, j) != (m, i) {
      LivePayloadsAreSafe(v, k, j, m, i);
    }
  }

  lemma FreedUndoesPlaced(v: View, req: nat, k: nat, j: nat, p: nat, w: View, u: View)
    requires Sound(v) && Placed(v, req, k, j, p, w) && Freed(w, k, j, u)
    ensures u == v
  {
    RemoveUndoesInsert(v[k], j, NewBlock(v, k, j, req));
    assert v[k].blocks != [];
    assert w[k := v[k]] == v;
  }

  lemma FreedUndoesFresh(v: View, req: nat, grant: nat, u: View)
    requires Freed(v + [FreshRegion(req, grant)], |v|, 0, u)
    ensures u == v
  {
    var w := v + [FreshRegion(req, grant)];
    assert w[..|v|] + w[|v| + 1..] == v;
  }

  lemma PlacedSlot(v: View, req: nat, k: nat, j: nat, p: nat, w: View)
    requires Placed(v, req, k, j, p, w)
    ensures IsSlot(w, k, j) && w[k].blocks[j].Payload() == p
  {
  }

  /** Freeing what a successful `malloc` returned restores every region and every block. */
  lemma FreeUndoesMalloc(v: View, bestBet: nat, req: nat, grant: nat, p: nat, w: View, u: View)
    requires Sound(v) && p != 0 && MallocStep(v, bestBet, req, grant, p, w) && FreeStep(w, p, u)
    requires grant == 0 || GrantOk(v, grant, PagesFor(SizeFor(req)))
    ensures u == v
  {
    hide IsScanStart, FirstFit, Placed, Freed, WellFormed;
    MallocKeepsSound(v, bestBet, req, grant, p, w);
    var a: nat, b: nat :| IsSlot(w, a, b) && w[a].blocks[b].Payload() == p && Freed(w, a, b, u);
    if NoFit(v, Need(req)) {
      PayloadNamesSlot(w, a, b, |v|, 0);
      FreedUndoesFresh(v, req, grant, u);
    } else {
      var start: nat, k: nat, j: nat :| IsScanStart(v, bestBet, Need(req), start) &&
        FirstFit(v, start, Need(req), k, j) && Placed(v, req, k, j, p, w);
      PlacedSlot(v, req, k, j, p, w);
      PayloadNamesSlot(w, a, b, k, j);
      FreedUndoesPlaced(v, req, k, j, p, w, u);
    }
  }
}
