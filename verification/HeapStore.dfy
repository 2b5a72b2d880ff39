/**
How the header store, the tags and the totals follow the heap value through each update: one lemma for every
way `malloc`, `free` and `realloc` change the heap.
*/
module HeapStore {
  import opened HeapLayout
  import opened HeapRuns
  import opened HeapHeaders

  /** The sizes computed for a request stay below 2^32. */
  predicate NoWrap(req: nat) {
    PagesFor(SizeFor(req)) * PAGE_SIZE < ADDRESS_SPACE
  }

  ghost predicate IsRegionAddr(v: View, a: nat) {
    exists k: nat :: k < |v| && v[k].addr == a
  }

  lemma TotalsAfterPlace(v: View, k: nat, j: nat, b: Block)
    requires k < |v| && j <= |v[k].blocks|
    ensures InUse(v[k := v[k].Insert(j, b)]) == InUse(v) + b.size
    ensures TotalSize(v[k := v[k].Insert(j, b)]) == TotalSize(v)
  {
    var t := v[k].Insert(j, b);
    TotalsUpdate(v, k, t);
    UsedAfterInsert(v[k], j, b);
    SizesAndHeaders(t.blocks);
    SizesAndHeaders(v[k].blocks);
  }

  lemma TotalsAfterRemove(v: View, k: nat, j: nat)
    requires IsSlot(v, k, j)
    ensures InUse(v[k := v[k].Remove(j)]) == InUse(v) - v[k].blocks[j].size
    ensures TotalSize(v[k := v[k].Remove(j)]) == TotalSize(v)
  {
    var t := v[k].Remove(j);
    TotalsUpdate(v, k, t);
    UsedAfterRemove(v[k], j);
    SizesAndHeaders(t.blocks);
    SizesAndHeaders(v[k].blocks);
  }

  lemma MemIsAddressSpace(v: View, mem: seq<int>)
    requires TagsMatch(v, mem)
    ensures |mem| == ADDRESS_SPACE
  {
  }

  /** The major header after an insertion: new first block, larger usage, same links. */
  lemma HeaderAfterInsert(v: View, k: nat, j: nat, b: Block)
    requires k < |v| && j <= |v[k].blocks|
    ensures var w := v[k := v[k].Insert(j, b)];
      MajorOf(w, k) == MajorOf(v, k).(first := BlockAddr(w[k], 0), usage := MajorOf(v, k).usage + b.size + HEADER)
  {
    UsedAfterInsert(v[k], j, b);
  }

  lemma MajorHeader(v: View, k: nat, majors: map<nat, Major>, minors: map<nat, Minor>)
    requires HeadersMatch(v, majors, minors) && k < |v|
    ensures v[k].addr in majors && majors[v[k].addr] == MajorOf(v, k)
  {
    var m := MajorOf(v, k);
  }

  lemma FirstBlockIsNull(v: View, k: nat)
    requires WellFormed(v) && k < |v|
    ensures BlockAddr(v[k], 0) == 0 <==> v[k].blocks == []
  {
    if v[k].blocks != [] {
      BlockInside(v[k], 0);
    }
  }

  lemma MinorHeader(v: View, k: nat, j: nat, majors: map<nat, Major>, minors: map<nat, Minor>)
    requires WellFormed(v) && HeadersMatch(v, majors, minors) && IsSlot(v, k, j)
    ensures v[k].blocks[j].addr in minors && minors[v[k].blocks[j].addr] == MinorOf(v[k], j)
    ensures v[k].blocks[j].addr > 0
  {
    BlockInside(v[k], j);
    var m := MinorOf(v[k], j);
  }

  /** A block linked into a gap: the heap value that results is described by the updated store. */
  lemma PlacementDescribed(v: View, k: nat, j: nat, req: nat, bestBet: nat, majors0: map<nat, Major>, minors0: map<nat, Minor>,
                           minors: map<nat, Minor>, mem: seq<int>)
    requires WellFormed(v) && HeadersMatch(v, majors0, minors0) && TagsMatch(v, mem)
    requires bestBet == 0 || IsRegionAddr(v, bestBet)
    requires k < |v| && j <= |v[k].blocks| && v[k].Fits(j, Need(req))
    requires LinkedIn(v[k], j, NewBlock(v, k, j, req), minors0, minors)
    ensures var b := NewBlock(v, k, j, req);
      var w := v[k := v[k].Insert(j, b)];
      && b.TagAt() < b.End() <= ADDRESS_SPACE
      && WellFormed(w) && HeadersMatch(w, majors0[v[k].addr := MajorOf(w, k)], minors)
      && TagsMatch(w, mem[b.TagAt() := b.Tag()])
      && (bestBet == 0 || IsRegionAddr(w, bestBet)) && RegionAddr(w, 0) == RegionAddr(v, 0)
      && InUse(w) == InUse(v) + SizeFor(req) && TotalSize(w) == TotalSize(v)
      && w[k].Usage() == v[k].Usage() + Need(req)
  {
    hide Used, RegionMinorsMatch, MagicMeansLive;
    var b := NewBlock(v, k, j, req);
    var w := v[k := v[k].Insert(j, b)];
    InsertKeepsOk(v[k], j, SizeFor(req), req);
    ReplaceKeepsWellFormed(v, k, w[k]);
    BlockInside(w[k], j);
    PayloadInside(b);
    UsedAfterInsert(v[k], j, b);
    TotalsAfterPlace(v, k, j, b);
    HeadersAfterPlace(v, k, j, req, majors0, minors0, minors);
    TagsAfterPlace(v, k, j, b, mem);
    if bestBet != 0 {
      var m: nat :| m < |v| && v[m].addr == bestBet;
      assert w[m].addr == bestBet;
    }
  }

  function EmptyRegion(req: nat, grant: nat): Region {
    Region(grant, PagesFor(SizeFor(req)), [])
  }

  /** A granted range linked behind the last region: the longer heap value is described by the updated store. */
  lemma AppendDescribed(v: View, req: nat, grant: nat, bestBet: nat, majors0: map<nat, Major>, majors: map<nat, Major>,
                        minors: map<nat, Minor>, mem: seq<int>)
    requires WellFormed(v) && HeadersMatch(v, majors0, minors) && TagsMatch(v, mem)
    requires bestBet == 0 || IsRegionAddr(v, bestBet)
    requires GrantOk(v, grant, PagesFor(SizeFor(req)))
    requires MajorAppended(v, EmptyRegion(req, grant), majors0, majors)
    ensures var w := v + [EmptyRegion(req, grant)];
      && WellFormed(w) && HeadersMatch(w, majors, minors) && TagsMatch(w, mem)
      && (bestBet == 0 || IsRegionAddr(w, bestBet))
      && InUse(w) == InUse(v) && TotalSize(w) == TotalSize(v) + PagesFor(SizeFor(req)) * PAGE_SIZE
  {
    hide Used, RegionMinorsMatch, MagicMeansLive;
    var e := EmptyRegion(req, grant);
    var w := v + [e];
    FreshRegionOk(req, grant);
    AppendKeepsWellFormed(v, e);
    HeadersAfterAppend(v, e, majors0, majors, minors);
    TotalsAppend(v, e);
    forall k: nat, j: nat | IsSlot(w, k, j)
      ensures IsSlot(v, k, j) && v[k] == w[k]
    {
    }
    if bestBet != 0 {
      var m: nat :| m < |v| && v[m].addr == bestBet;
      assert w[m].addr == bestBet;
    }
  }

  lemma LastHeader(v: View, e: Region)
    requires e.blocks == []
    ensures v != [] ==> MajorOf(v + [e], |v| - 1) == MajorOf(v, |v| - 1).(next := e.addr)
    ensures MajorOf(v + [e], |v|) == Major(RegionAddr(v, |v| - 1), 0, e.pages, e.Size(), HEADER, 0)
  {
  }

  lemma GrantIsNew(v: View, grant: nat, pages: nat, k: nat)
    requires WellFormed(v) && k < |v| && pages > 0 && GrantOk(v, grant, pages)
    ensures v[k].addr != grant
  {
    assert Apart(v[k], Region(grant, pages, []));
  }

  /** Nothing fits from `lo` up to, not including, `hi`. */
  ghost predicate NoFitFrom(v: View, need: nat, lo: nat, hi: nat) {
    hi <= |v| && forall m :: lo <= m < hi ==> v[m].NoGapFits(need)
  }

  /** The regions the search has passed when it stands at region `i`, having begun at `start`. */
  ghost predicate Passed(v: View, need: nat, startedBet: bool, start: nat, i: nat) {
    if startedBet then start <= i && NoFitFrom(v, need, start, i)
    else NoFitFrom(v, need, 0, i) && (start == 0 || NoFitFrom(v, need, start, |v|))
  }

  lemma PassedNext(v: View, need: nat, startedBet: bool, start: nat, i: nat)
    requires Passed(v, need, startedBet, start, i) && i < |v| && v[i].NoGapFits(need)
    ensures Passed(v, need, startedBet, start, i + 1)
  {
  }

  lemma PassedNothing(v: View, need: nat, start: nat)
    requires start <= |v|
    ensures Passed(v, need, true, start, start)
    ensures start == 0 ==> Passed(v, need, false, 0, 0)
  {
  }

  lemma PassedRestart(v: View, need: nat, start: nat)
    requires Passed(v, need, true, start, |v|)
    ensures Passed(v, need, false, start, 0)
  {
  }

  lemma PassedAll(v: View, need: nat, start: nat)
    requires Passed(v, need, false, start, |v|)
    ensures NoFit(v, need)
  {
  }

  lemma PlacedIsFirstFit(v: View, bestBet: nat, startedBet: bool, start: nat, req: nat, grant: nat,
                         k: nat, j: nat, p: nat, w: View)
    requires IsScanStart(v, bestBet, Need(req), start) && Placed(v, req, k, j, p, w)
    requires forall i: nat :: i < j ==> !v[k].Fits(i, Need(req))
    requires Passed(v, Need(req), startedBet, start, k)
    ensures !NoFit(v, Need(req)) && MallocStep(v, bestBet, req, grant, p, w)
  {
    assert !v[k].NoGapFits(Need(req));
    assert start <= k ==> NoFitFrom(v, Need(req), start, k);
    assert FirstFit(v, start, Need(req), k, j);
  }

  lemma RefusedIsMallocStep(v: View, bestBet: nat, req: nat)
    requires NoFit(v, Need(req))
    ensures MallocStep(v, bestBet, req, 0, 0, v)
  {
  }

  lemma FreshIsMallocStep(v: View, bestBet: nat, req: nat, grant: nat, p: nat, w: View)
    requires NoFit(v, Need(req)) && grant > 0
    requires Placed(v + [EmptyRegion(req, grant)], req, |v|, 0, p, w)
    ensures MallocStep(v, bestBet, req, grant, p, w)
  {
    var e := EmptyRegion(req, grant);
    var b := Block(grant + HEADER, SizeFor(req), req);
    assert e.Insert(0, b).blocks == [b];
    assert w == v + [FreshRegion(req, grant)];
  }

  lemma PlacedLeavesNoneEmpty(v: View, req: nat, k: nat, j: nat, p: nat, w: View)
    requires Placed(v, req, k, j, p, w)
    requires forall m :: 0 <= m < |v| && m != k ==> v[m].blocks != []
    ensures NoneEmpty(w) && p > ALIGN_INFO
  {
  }

  /** What the header of region `k` tells about its free bytes and about the end of the list. */
  lemma RegionFacts(v: View, k: nat, need: nat, majors: map<nat, Major>, minors: map<nat, Minor>)
    requires WellFormed(v) && HeadersMatch(v, majors, minors) && k < |v|
    ensures v[k].addr > 0 && v[k].addr in majors && majors[v[k].addr] == MajorOf(v, k)
    ensures v[k].Usage() <= v[k].Size()
    ensures v[k].Size() - v[k].Usage() < need ==> v[k].NoGapFits(need)
    ensures MajorOf(v, k).next == 0 <==> k + 1 == |v|
  {
    MajorHeader(v, k, majors, minors);
    FreeBytesBoundGaps(v[k], need);
  }

  lemma EmptyRegionFits(v: View, req: nat, grant: nat)
    requires GrantOk(v, grant, PagesFor(SizeFor(req)))
    ensures var e := EmptyRegion(req, grant); e.Fits(0, Need(req)) && !e.NoGapFits(Need(req)) && e.Size() - e.Usage() >= Need(req)
  {
    FreshRegionOk(req, grant);
  }

  /** The region the search starts from. */
  lemma BetIsScanStart(v: View, bestBet: nat, need: nat, k: nat)
    requires WellFormed(v) && k < |v| && v[k].addr == bestBet
    ensures IsScanStart(v, bestBet, need, if v[k].Size() - v[k].Usage() > need then k else 0)
  {
    hide Used;
    forall m: nat | m < |v| && v[m].addr == bestBet
      ensures m == k
    {
      if m != k {
        RegionAddrsDiffer(v, m, k);
      }
    }
  }

  lemma NoBetStartsAtRoot(v: View, need: nat)
    requires WellFormed(v)
    ensures IsScanStart(v, 0, need, 0)
  {
    hide Used;
  }

  lemma FindRegion(v: View, a: nat) returns (k: nat)
    requires IsRegionAddr(v, a)
    ensures k < |v| && v[k].addr == a
  {
    k :| k < |v| && v[k].addr == a;
  }

  lemma RegionIsFound(v: View, k: nat)
    requires k < |v|
    ensures IsRegionAddr(v, v[k].addr)
  {
  }

  // ----- Freeing

  /** A pointer `malloc` handed out and nobody freed yet. */
  ghost predicate IsLive(v: View, p: nat) {
    exists k: nat, j: nat :: IsSlot(v, k, j) && v[k].blocks[j].Payload() == p
  }

  /** The header address `UNALIGN` and the cast in `free` compute for a pointer. */
  function HeaderOf(mem: seq<int>, p: nat): int
    requires ALIGN_INFO <= p && p - ALIGN_INFO < |mem|
  {
    var diff := mem[p - ALIGN_INFO];
    (if diff < ALIGNMENT + ALIGN_INFO then p - diff else p) - HEADER
  }

  /** A stored header can be read behind the pointer. */
  predicate HeaderReadable(mem: seq<int>, minors: map<nat, Minor>, p: nat) {
    ALIGN_INFO <= p && p - ALIGN_INFO < |mem| && HeaderOf(mem, p) >= 0 && HeaderOf(mem, p) in minors
  }

  /** Removing the block whose header the pointer leads to is the step `free` of a live pointer makes. */
  lemma FreedIsFreeStep(v: View, p: nat, k: nat, j: nat, majors: map<nat, Major>, minors: map<nat, Minor>, mem: seq<int>, w: View)
    requires WellFormed(v) && HeadersMatch(v, majors, minors) && TagsMatch(v, mem) && HeaderReadable(mem, minors, p)
    requires Freed(v, k, j, w) && v[k].blocks[j].addr == HeaderOf(mem, p)
    ensures IsLive(v, p) ==> FreeStep(v, p, w)
  {
    hide WellFormed, HeadersMatch, TagsMatch, HeaderReadable;
    LivePointer(v, p, majors, minors, mem);
    forall m: nat, i: nat | IsSlot(v, m, i) && v[m].blocks[i].Payload() == p
      ensures m == k && i == j
    {
      if (m, i) != (k, j) {
        BlocksApart(v, k, j, m, i);
      }
    }
  }

  lemma HeaderAddress(mem: seq<int>, minors: map<nat, Minor>, p: nat)
    requires HeaderReadable(mem, minors, p)
    ensures ALIGN_INFO <= p && p - ALIGN_INFO < |mem| && HeaderOf(mem, p) in minors
  {
  }

  /** Unaligning a live pointer finds exactly the block `malloc` created. */
  lemma UnalignFindsBlock(v: View, k: nat, j: nat, majors: map<nat, Major>, minors: map<nat, Minor>, mem: seq<int>)
    requires WellFormed(v) && HeadersMatch(v, majors, minors) && TagsMatch(v, mem) && IsSlot(v, k, j)
    ensures HeaderReadable(mem, minors, v[k].blocks[j].Payload())
    ensures HeaderOf(mem, v[k].blocks[j].Payload()) == v[k].blocks[j].addr
  {
    PayloadInside(v[k].blocks[j]);
    BlockInside(v[k], j);
    MinorHeader(v, k, j, majors, minors);
  }

  lemma FindBlock(v: View, a: nat) returns (k: nat, j: nat)
    requires IsBlockAddr(v, a)
    ensures IsSlot(v, k, j) && v[k].blocks[j].addr == a
  {
    k, j :| IsSlot(v, k, j) && v[k].blocks[j].addr == a;
  }

  lemma BlockAddrsDiffer(v: View, k: nat, i: nat, j: nat)
    requires WellFormed(v) && k < |v| && i < j < |v[k].blocks|
    ensures v[k].blocks[i].addr < v[k].blocks[j].addr
  {
    BlocksInOrder(v[k], i, j);
  }

  lemma RemovalDescribed(v: View, k: nat, j: nat, bestBet: nat, majors0: map<nat, Major>, minors0: map<nat, Minor>,
                         minors: map<nat, Minor>, mem: seq<int>)
    requires WellFormed(v) && HeadersMatch(v, majors0, minors0) && TagsMatch(v, mem)
    requires bestBet == 0 || IsRegionAddr(v, bestBet)
    requires IsSlot(v, k, j) && LinkedOut(v[k], j, minors0, minors)
    ensures var w := v[k := v[k].Remove(j)];
      && WellFormed(w) && HeadersMatch(w, majors0[v[k].addr := MajorOf(w, k)], minors) && TagsMatch(w, mem)
      && (bestBet == 0 || IsRegionAddr(w, bestBet)) && RegionAddr(w, 0) == RegionAddr(v, 0)
      && InUse(w) == InUse(v) - v[k].blocks[j].size && TotalSize(w) == TotalSize(v)
  {
    hide Used, WellFormed, HeadersMatch, TagsMatch, LinkedOut, InUse, TotalSize;
    var w := v[k := v[k].Remove(j)];
    RemoveKeepsWellFormed(v, k, j);
    TotalsAfterRemove(v, k, j);
    HeadersAfterRemove(v, k, j, majors0, minors0, minors);
    TagsAfterRemove(v, k, j, mem);
    if bestBet != 0 {
      var m: nat :| m < |v| && v[m].addr == bestBet;
      assert w[m].addr == bestBet;
    }
  }

  lemma RemoveKeepsWellFormed(v: View, k: nat, j: nat)
    requires WellFormed(v) && IsSlot(v, k, j)
    ensures WellFormed(v[k := v[k].Remove(j)])
  {
    RemoveKeepsOk(v[k], j);
    ReplaceKeepsWellFormed(v, k, v[k].Remove(j));
  }

  lemma TagsAfterRemove(v: View, k: nat, j: nat, mem: seq<int>)
    requires TagsMatch(v, mem) && IsSlot(v, k, j)
    ensures TagsMatch(v[k := v[k].Remove(j)], mem)
  {
    var w := v[k := v[k].Remove(j)];
    forall m: nat, i: nat | IsSlot(w, m, i)
      ensures w[m].blocks[i].TagAt() < |mem| && mem[w[m].blocks[i].TagAt()] == w[m].blocks[i].Tag()
    {
      var i' := if m == k && i >= j then i + 1 else i;
      assert IsSlot(v, m, i') && w[m].blocks[i] == v[m].blocks[i'];
    }
  }

  lemma TagsAfterDrop(v: View, k: nat, mem: seq<int>)
    requires TagsMatch(v, mem) && k < |v|
    ensures TagsMatch(v[..k] + v[k + 1..], mem)
  {
    var w := v[..k] + v[k + 1..];
    forall m: nat, i: nat | IsSlot(w, m, i)
      ensures w[m].blocks[i].TagAt() < |mem| && mem[w[m].blocks[i].TagAt()] == w[m].blocks[i].Tag()
    {
      var m' := if m >= k then m + 1 else m;
      assert IsSlot(v, m', i) && w[m] == v[m'];
    }
  }

  lemma DropDescribed(v: View, k: nat, bestBet: nat, majors0: map<nat, Major>, majors: map<nat, Major>,
                      minors0: map<nat, Minor>, minors: map<nat, Minor>, mem: seq<int>)
    requires WellFormed(v) && HeadersMatch(v, majors0, minors0) && TagsMatch(v, mem)
    requires bestBet == 0 || IsRegionAddr(v, bestBet)
    requires IsSlot(v, k, 0) && |v[k].blocks| == 1 && LinkedOut(v[k], 0, minors0, minors)
    requires MajorLinkedOut(v, k, majors0, majors)
    ensures var w := v[..k] + v[k + 1..];
      && WellFormed(w) && TagsMatch(w, mem)
      && HeadersMatch(w, Released(majors, v[k].addr, v[k].End()), Released(minors, v[k].addr, v[k].End()))
      && (bestBet == 0 || bestBet == v[k].addr || IsRegionAddr(w, bestBet))
      && RegionAddr(w, 0) == RegionAddr(v, if k == 0 then 1 else 0)
      && InUse(w) == InUse(v) - v[k].blocks[0].size && TotalSize(w) == TotalSize(v) - v[k].Size()
  {
    hide Used, WellFormed, HeadersMatch, TagsMatch, LinkedOut, MajorLinkedOut, InUse, TotalSize, Released;
    var w := v[..k] + v[k + 1..];
    DropKeepsWellFormed(v, k);
    TotalsRemove(v, k);
    SumOfOne(v[k].blocks[0]);
    assert v[k].blocks == [v[k].blocks[0]];
    HeadersAfterDrop(v, k, majors0, majors, minors0, minors);
    HeadersAfterRelease(v, k, majors, minors);
    TagsAfterDrop(v, k, mem);
    if bestBet != 0 && bestBet != v[k].addr {
      var m: nat :| m < |v| && v[m].addr == bestBet;
      assert w[if m > k then m - 1 else m].addr == bestBet;
    }
  }

  lemma SumOfOne(b: Block)
    ensures SumOfSizes([b]) == b.size
  {
    assert [b][..0] == [];
  }

  /** The header of a region after one of its blocks was removed. */
  lemma HeaderAfterRemove(v: View, k: nat, j: nat)
    requires IsSlot(v, k, j)
    ensures MajorOf(v, k).usage >= v[k].blocks[j].size + HEADER
    ensures var w := v[k := v[k].Remove(j)];
      MajorOf(w, k) == MajorOf(v, k).(first := if j == 0 then BlockAddr(v[k], 1) else BlockAddr(v[k], 0),
                                      usage := MajorOf(v, k).usage - (v[k].blocks[j].size + HEADER))
  {
    UsedAfterRemove(v[k], j);
  }

  lemma InUseCoversBlock(v: View, k: nat, j: nat)
    requires IsSlot(v, k, j)
    ensures InUse(v) >= v[k].blocks[j].size
  {
    TotalsAfterRemove(v, k, j);
  }

  /** The minor list as the stores of `free` leave it. */
  function Unlinked(minors: map<nat, Minor>, min: nat): map<nat, Minor>
    requires min in minors
    requires minors[min].next == 0 || minors[min].next in minors
    requires minors[min].prev == 0 || minors[min].prev in minors
  {
    var dead := minors[min := minors[min].(magic := DEAD)];
    var next, prev := dead[min].next, dead[min].prev;
    var after := if next == 0 then dead else dead[next := dead[next].(prev := prev)];
    if prev == 0 then after else after[prev := after[prev].(next := next)]
  }

  lemma UnlinkedIsLinkedOut(v: View, k: nat, j: nat, majors: map<nat, Major>, minors: map<nat, Minor>)
    requires WellFormed(v) && HeadersMatch(v, majors, minors) && IsSlot(v, k, j)
    ensures var min := v[k].blocks[j].addr;
      && min in minors && minors[min] == MinorOf(v[k], j)
      && (minors[min].next == 0 || minors[min].next in minors) && (minors[min].prev == 0 || minors[min].prev in minors)
      && (minors[min].next == 0 <==> j + 1 == |v[k].blocks|) && (minors[min].prev == 0 <==> j == 0)
      && minors[min].next != min && minors[min].prev != min && (minors[min].prev != 0 ==> minors[min].prev != minors[min].next)
      && LinkedOut(v[k], j, minors, Unlinked(minors, min))
  {
    hide WellFormed, HeadersMatch;
    MinorHeader(v, k, j, majors, minors);
    if j > 0 {
      MinorHeader(v, k, j - 1, majors, minors);
      BlockAddrsDiffer(v, k, j - 1, j);
    }
    if j + 1 < |v[k].blocks| {
      MinorHeader(v, k, j + 1, majors, minors);
      BlockAddrsDiffer(v, k, j, j + 1);
    }
    if 0 < j && j + 1 < |v[k].blocks| {
      BlockAddrsDiffer(v, k, j - 1, j + 1);
    }
  }

  /** The major list as the stores of `free` leave it. */
  function MajorUnlinked(majors: map<nat, Major>, maj: nat): map<nat, Major>
    requires maj in majors
    requires majors[maj].next == 0 || majors[maj].next in majors
    requires majors[maj].prev == 0 || majors[maj].prev in majors
  {
    var next, prev := majors[maj].next, majors[maj].prev;
    var after := if prev == 0 then majors else majors[prev := majors[prev].(next := next)];
    if next == 0 then after else after[next := after[next].(prev := prev)]
  }

  lemma MajorUnlinkedIsLinkedOut(v: View, k: nat, majors: map<nat, Major>, minors: map<nat, Minor>, header: Major)
    requires WellFormed(v) && HeadersMatch(v, majors, minors) && k < |v|
    requires header.prev == RegionAddr(v, k - 1) && header.next == RegionAddr(v, k + 1)
    ensures var maj, emptied := v[k].addr, majors[v[k].addr := header];
      && maj > 0 && header.prev != maj && header.next != maj && (header.prev != 0 ==> header.prev != header.next)
      && (header.next == 0 || header.next in majors) && (header.prev == 0 || header.prev in majors)
      && (header.prev == 0 <==> k == 0)
      && MajorLinkedOut(v, k, majors, MajorUnlinked(emptied, maj))
  {
    hide WellFormed, HeadersMatch, Used;
    MajorHeader(v, k, majors, minors);
    RegionAddrPositive(v, k);
    var w := v[..k] + v[k + 1..];
    if k > 0 {
      MajorHeader(v, k - 1, majors, minors);
      RegionAddrPositive(v, k - 1);
      RegionAddrsDiffer(v, k - 1, k);
      assert MajorOf(w, k - 1) == MajorOf(v, k - 1).(next := RegionAddr(v, k + 1));
    }
    if k + 1 < |v| {
      MajorHeader(v, k + 1, majors, minors);
      RegionAddrPositive(v, k + 1);
      RegionAddrsDiffer(v, k, k + 1);
      assert MajorOf(w, k) == MajorOf(v, k + 1).(prev := RegionAddr(v, k - 1));
    }
    if 0 < k && k + 1 < |v| {
      RegionAddrsDiffer(v, k - 1, k + 1);
    }
  }

  lemma LivePointer(v: View, p: nat, majors: map<nat, Major>, minors: map<nat, Minor>, mem: seq<int>)
    requires WellFormed(v) && HeadersMatch(v, majors, minors) && TagsMatch(v, mem)
    ensures IsLive(v, p) ==> p != 0 && HeaderReadable(mem, minors, p) && minors[HeaderOf(mem, p)].magic == MAGIC
    ensures forall k: nat, j: nat :: IsSlot(v, k, j) && v[k].blocks[j].Payload() == p ==> v[k].blocks[j].addr == HeaderOf(mem, p)
  {
    forall k: nat, j: nat | IsSlot(v, k, j) && v[k].blocks[j].Payload() == p
      ensures p != 0 && HeaderReadable(mem, minors, p) && minors[HeaderOf(mem, p)].magic == MAGIC && v[k].blocks[j].addr == HeaderOf(mem, p)
    {
      UnalignFindsBlock(v, k, j, majors, minors, mem);
      MinorHeader(v, k, j, majors, minors);
    }
  }

  lemma LiveHeader(v: View, min: nat, majors: map<nat, Major>, minors: map<nat, Minor>) returns (k: nat, j: nat)
    requires HeadersMatch(v, majors, minors) && min in minors && minors[min].magic == MAGIC
    ensures IsSlot(v, k, j) && v[k].blocks[j].addr == min
  {
    k, j := FindBlock(v, min);
  }

  /** The region's list is empty after the removal exactly when the block was its only one. */
  lemma EmptiedRegion(v: View, k: nat, j: nat)
    requires WellFormed(v) && IsSlot(v, k, j)
    ensures MajorOf(v[k := v[k].Remove(j)], k).first == 0 <==> |v[k].blocks| == 1
  {
    hide Used;
    RemoveKeepsWellFormed(v, k, j);
    FirstBlockIsNull(v[k := v[k].Remove(j)], k);
  }

  /** The block at `p` is not the only one of its region, so the region outlives it. */
  ghost predicate SharesRegion(v: View, p: nat) {
    exists k: nat, j: nat :: IsSlot(v, k, j) && v[k].blocks[j].Payload() == p && |v[k].blocks| > 1
  }

  /** A freed block's header afterwards: marked dead if its region was kept, gone with the pages if not. */
  ghost predicate HeaderFreed(v: View, k: nat, j: nat, minors: map<nat, Minor>)
    requires IsSlot(v, k, j)
  {
    var a := v[k].blocks[j].addr;
    if |v[k].blocks| > 1 then a in minors && minors[a].magic == DEAD else a !in minors
  }

  lemma ReleasedHeaderIsGone(v: View, k: nat, minors: map<nat, Minor>)
    requires WellFormed(v) && IsSlot(v, k, 0)
    ensures v[k].blocks[0].addr !in Released(minors, v[k].addr, v[k].End())
  {
    BlockInside(v[k], 0);
  }

  /** The only block of a heap never shares its region: the input for which a second `free` goes unnoticed. */
  lemma LoneBlockIsAlone(req: nat, grant: nat)
    ensures !SharesRegion([FreshRegion(req, grant)], FreshRegion(req, grant).blocks[0].Payload())
    ensures IsLive([FreshRegion(req, grant)], FreshRegion(req, grant).blocks[0].Payload())
  {
    var v := [FreshRegion(req, grant)];
    assert IsSlot(v, 0, 0) && v[0].blocks[0].Payload() == FreshRegion(req, grant).blocks[0].Payload();
  }

  /** After `free` has removed the block at `p`, its header can be read exactly when its region was kept. */
  lemma ReadableIffShared(v: View, p: nat, k: nat, j: nat, majors: map<nat, Major>, minors: map<nat, Minor>, mem: seq<int>,
                          after: map<nat, Minor>)
    requires WellFormed(v) && HeadersMatch(v, majors, minors) && TagsMatch(v, mem) && IsLive(v, p)
    requires HeaderReadable(mem, minors, p) && IsSlot(v, k, j) && v[k].blocks[j].addr == HeaderOf(mem, p) && HeaderFreed(v, k, j, after)
    ensures HeaderReadable(mem, after, p) <==> SharesRegion(v, p)
    ensures SharesRegion(v, p) ==> after[HeaderOf(mem, p)].magic == DEAD
  {
    hide WellFormed, HeadersMatch, TagsMatch;
    LivePointer(v, p, majors, minors, mem);
    forall m: nat, i: nat | IsSlot(v, m, i) && v[m].blocks[i].Payload() == p
      ensures m == k && i == j
    {
      if (m, i) != (k, j) {
        BlocksApart(v, k, j, m, i);
      }
    }
  }

  lemma UnlinkedHeaderIsDead(r: Region, j: nat, before: map<nat, Minor>, after: map<nat, Minor>)
    requires j < |r.blocks| && LinkedOut(r, j, before, after)
    ensures before.Keys <= after.Keys && r.blocks[j].addr in after && after[r.blocks[j].addr].magic == DEAD
  {
  }

  lemma TotalCoversRegion(v: View, k: nat)
    requires k < |v|
    ensures TotalSize(v) >= v[k].Size()
  {
    TotalsRemove(v, k);
  }

  /** The last three, two or one bytes of the magic number have survived. */
  predicate LooksOverrun(magic: nat) {
    magic % 0x1000000 == MAGIC % 0x1000000 || magic % 0x10000 == MAGIC % 0x10000 || magic % 0x100 == MAGIC % 0x100
  }

  /** Of the three tests the last one implies the others' answer: only the lowest byte of the magic number counts. */
  lemma OverrunIsLowByte(magic: nat)
    ensures LooksOverrun(magic) <==> magic % 256 == 0xDE
  {
    assert magic % 0x1000000 == 0x01c0de ==> magic % 256 == 0xDE;
    assert magic % 0x10000 == 0xc0de ==> magic % 256 == 0xDE;
  }

  /** The value of a `size_t` stored in an `int`. */
  function AsInt(n: int): int {
    var m := n % 0x1_0000_0000;
    if m < 0x8000_0000 then m else m - 0x1_0000_0000
  }

  // ----- Client memory

  /** Bytes outside the `n` bytes at `at` are the same in both memories. */
  ghost predicate SameOutside(before: seq<int>, after: seq<int>, at: nat, n: nat) {
    |before| == |after| && forall a :: 0 <= a < |before| && !(at <= a < at + n) ==> after[a] == before[a]
  }

  /** Stores into the requested bytes of a live block never touch a tag. */
  lemma PayloadStoreKeepsTags(v: View, k: nat, j: nat, before: seq<int>, after: seq<int>)
    requires WellFormed(v) && TagsMatch(v, before) && IsSlot(v, k, j)
    requires SameOutside(before, after, v[k].blocks[j].Payload(), v[k].blocks[j].req)
    ensures TagsMatch(v, after)
  {
    forall m: nat, i: nat | IsSlot(v, m, i)
      ensures v[m].blocks[i].TagAt() < |after| && after[v[m].blocks[i].TagAt()] == v[m].blocks[i].Tag()
    {
      PayloadInside(v[k].blocks[j]);
      PayloadInside(v[m].blocks[i]);
      if (m, i) != (k, j) {
        LivePayloadsAreSafe(v, k, j, m, i);
      }
    }
  }

  lemma MallocReturnsLive(v: View, bestBet: nat, req: nat, grant: nat, p: nat, w: View)
    requires MallocStep(v, bestBet, req, grant, p, w) && p != 0
    ensures IsLive(w, p)
  {
    var k, j := MallocSlot(v, bestBet, req, grant, p, w);
  }

  /** Where block `b` of region `a` sits once a block has been inserted at slot `(k, j)`. */
  function Shifted(k: nat, j: nat, a: nat, b: nat): nat {
    if a == k && b >= j then b + 1 else b
  }

  /** Every block of `v` is a block of `w`, in a slot other than `(k, j)`. */
  ghost predicate OldBlocksKept(v: View, w: View, k: nat, j: nat) {
    forall a: nat, b: nat {:trigger IsSlot(v, a, b)} :: IsSlot(v, a, b) ==>
      IsSlot(w, a, Shifted(k, j, a, b)) && w[a].blocks[Shifted(k, j, a, b)] == v[a].blocks[b]
  }

  /** The slot a successful `malloc` filled; all earlier blocks are still there. */
  lemma MallocSlot(v: View, bestBet: nat, req: nat, grant: nat, p: nat, w: View) returns (k: nat, j: nat)
    requires MallocStep(v, bestBet, req, grant, p, w) && p != 0
    ensures IsSlot(w, k, j) && w[k].blocks[j].Payload() == p && w[k].blocks[j].req == req
    ensures OldBlocksKept(v, w, k, j)
  {
    hide IsScanStart, FirstFit, Placed;
    if NoFit(v, Need(req)) {
      k, j := |v|, 0;
    } else {
      var start: nat;
      start, k, j :| IsScanStart(v, bestBet, Need(req), start) && FirstFit(v, start, Need(req), k, j) && Placed(v, req, k, j, p, w);
      PlacedKeepsBlocks(v, req, k, j, p, w);
    }
  }

  lemma PlacedKeepsBlocks(v: View, req: nat, k: nat, j: nat, p: nat, w: View)
    requires Placed(v, req, k, j, p, w)
    ensures IsSlot(w, k, j) && w[k].blocks[j].Payload() == p && w[k].blocks[j].req == req
    ensures OldBlocksKept(v, w, k, j)
  {
  }

  lemma RefusedLeavesHeap(v: View, bestBet: nat, req: nat, grant: nat, w: View)
    requires MallocStep(v, bestBet, req, grant, 0, w)
    ensures w == v
  {
  }

  lemma ResizeDescribed(v: View, k: nat, j: nat, req: nat, bestBet: nat, mem: seq<int>)
    requires WellFormed(v) && NoneEmpty(v) && TagsMatch(v, mem) && IsSlot(v, k, j) && req <= v[k].blocks[j].req
    requires bestBet == 0 || IsRegionAddr(v, bestBet)
    ensures var w := v[k := v[k].Resize(j, req)];
      && WellFormed(w) && NoneEmpty(w) && TagsMatch(w, mem) && (bestBet == 0 || IsRegionAddr(w, bestBet))
      && RegionAddr(w, 0) == RegionAddr(v, 0) && InUse(w) == InUse(v) && TotalSize(w) == TotalSize(v)
  {
    hide Used, InUse, TotalSize;
    var w := v[k := v[k].Resize(j, req)];
    ResizeKeepsOk(v[k], j, req);
    ReplaceKeepsWellFormed(v, k, w[k]);
    TotalsUpdate(v, k, w[k]);
    SizesAndHeaders(v[k].blocks);
    SizesAndHeaders(w[k].blocks);
    forall m: nat, i: nat | IsSlot(w, m, i)
      ensures IsSlot(v, m, i) && w[m].blocks[i].TagAt() == v[m].blocks[i].TagAt() && w[m].blocks[i].Tag() == v[m].blocks[i].Tag()
    {
    }
    if bestBet != 0 {
      var m: nat :| m < |v| && v[m].addr == bestBet;
      assert w[m].addr == bestBet;
    }
  }

  /** Every live block of `v` other than the one at `p` has the same requested bytes in both memories. */
  ghost predicate OthersKept(v: View, p: nat, before: seq<int>, after: seq<int>) {
    |before| == |after| &&
    forall k: nat, j: nat :: IsSlot(v, k, j) && v[k].blocks[j].Payload() != p ==> SameBytes(v[k].blocks[j], before, after)
  }

  ghost predicate SameBytes(b: Block, before: seq<int>, after: seq<int>) {
    |before| == |after| && forall a :: b.Payload() <= a < b.Payload() + b.req && a < |before| ==> after[a] == before[a]
  }

  /** The bytes of a new block and those of an older one lie apart, inside the address space. */
  lemma NewBlockApart(v: View, w: View, k: nat, j: nat, a: nat, b: nat)
    requires WellFormed(w) && IsSlot(w, k, j) && IsSlot(v, a, b) && OldBlocksKept(v, w, k, j)
    ensures var x, y := w[k].blocks[j], v[a].blocks[b];
      && x.Payload() + x.req <= ADDRESS_SPACE && y.Payload() + y.req <= ADDRESS_SPACE
      && (x.Payload() + x.req <= y.TagAt() || y.Payload() + y.req <= x.TagAt())
      && x.TagAt() + ALIGN_INFO == x.Payload() && y.TagAt() + ALIGN_INFO == y.Payload()
  {
    var b' := Shifted(k, j, a, b);
    LivePayloadsAreSafe(w, k, j, a, b');
    LivePayloadsAreSafe(w, a, b', k, j);
    BlockInside(w[k], j);
    BlockInside(w[a], b');
  }

  /** Storing the new tag and filling the new payload leaves every older block's bytes alone. */
  lemma MoveKeepsOthers(v: View, w: View, k: nat, j: nat, p: nat, before: seq<int>, tagged: seq<int>, after: seq<int>)
    requires WellFormed(w) && IsSlot(w, k, j) && OldBlocksKept(v, w, k, j)
    requires SameOutside(before, tagged, w[k].blocks[j].TagAt(), 1)
    requires SameOutside(tagged, after, w[k].blocks[j].Payload(), w[k].blocks[j].req)
    ensures OthersKept(v, p, before, after)
  {
    forall a: nat, b: nat | IsSlot(v, a, b)
      ensures SameBytes(v[a].blocks[b], before, after)
    {
      NewBlockApart(v, w, k, j, a, b);
    }
  }

  /** Whenever `realloc` has to move the block, its inner `malloc` will succeed. */
  ghost predicate MoveSucceeds(v: View, p: nat, size: nat, grant: nat) {
    Outgrown(v, p, size) ==> grant != 0 || !NoFit(v, Need(size))
  }

  /** The bytes a `realloc` from `p` to `q` must carry over. */
  ghost predicate ContentsCarried(v: View, p: nat, size: nat, q: nat, before: seq<int>, after: seq<int>) {
    forall k: nat, j: nat :: IsSlot(v, k, j) && v[k].blocks[j].Payload() == p ==>
      var n := if v[k].blocks[j].req < size then v[k].blocks[j].req else size;
      p + n <= |before| && q + n <= |after| && after[q..q + n] == before[p..p + n]
  }

  lemma ShrinkIsRealloc(v: View, k: nat, j: nat, p: nat, size: nat, mem: seq<int>)
    requires WellFormed(v) && |mem| == ADDRESS_SPACE && IsSlot(v, k, j) && v[k].blocks[j].Payload() == p && size <= v[k].blocks[j].req
    ensures !Outgrown(v, p, size) && ResizeStep(v, p, size, v[k := v[k].Resize(j, size)])
    ensures ContentsCarried(v, p, size, p, mem, mem) && OthersKept(v, p, mem, mem)
  {
    forall a: nat, b: nat | IsSlot(v, a, b) && v[a].blocks[b].Payload() == p
      ensures a == k && b == j && p + v[a].blocks[b].req <= |mem|
    {
      PayloadInside(v[a].blocks[b]);
      BlockInside(v[a], b);
      PayloadNamesSlot(v, k, j, a, b);
    }
  }

  lemma MoveCarries(v: View, k: nat, j: nat, p: nat, size: nat, q: nat, before: seq<int>, after: seq<int>)
    requires WellFormed(v) && IsSlot(v, k, j) && v[k].blocks[j].Payload() == p && v[k].blocks[j].req < size
    requires var n := v[k].blocks[j].req; p + n <= |before| && q + n <= |after| && after[q..q + n] == before[p..p + n]
    ensures Outgrown(v, p, size) && ContentsCarried(v, p, size, q, before, after)
  {
    forall a: nat, b: nat | IsSlot(v, a, b) && v[a].blocks[b].Payload() == p
      ensures a == k && b == j
    {
      PayloadNamesSlot(v, k, j, a, b);
    }
  }

  lemma FindLive(v: View, p: nat) returns (k: nat, j: nat)
    requires IsLive(v, p)
    ensures IsSlot(v, k, j) && v[k].blocks[j].Payload() == p
  {
    k, j :| IsSlot(v, k, j) && v[k].blocks[j].Payload() == p;
  }
}
