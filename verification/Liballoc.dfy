/**
`malloc`, `free` and `realloc` of the kernel heap, working in place on a header store and on the
bytes of the address space.
*/
module Liballoc {
  import opened Bytes
  import opened HeapLayout
  import opened HeapRuns
  import opened HeapHeaders
  import opened HeapStore
  import opened HeapHint
  import opened HeapClients

  class Heap {
    var root: nat
    var bestBet: nat
    var total: nat
    var inUse: nat
    var warnings: nat
    var errors: nat
    var overruns: nat
    var majors: map<nat, Major>
    var minors: map<nat, Minor>
    const mem: array<Byte>
    ghost var view: View

    /** Headers, tags, list head, hint and totals all describe the heap value `view`. */
    ghost predicate Core()
      reads this, mem
    {
      WellFormed(view) && HeadersMatch(view, majors, minors) && TagsMatch(view, mem[..]) &&
      root == RegionAddr(view, 0) && (bestBet == 0 || IsRegionAddr(view, bestBet)) &&
      inUse == InUse(view) && total == TotalSize(view)
    }

    ghost predicate Valid()
      reads this, mem
    {
      Core() && NoneEmpty(view)
    }

    constructor (mem: array<Byte>)
      requires mem.Length == ADDRESS_SPACE
      ensures Valid() && view == [] && this.mem == mem
    {
      root, bestBet, total, inUse := 0, 0, 0, 0;
      warnings, errors, overruns := 0, 0, 0;
      majors, minors := map[], map[];
      this.mem := mem;
      view := [];
    }

    /** `allocate_new_page`, with the page provider's answer as a parameter (0 for a refusal). */
    method AllocateNewPage(size: nat, grant: nat) returns (maj: nat)
      modifies this`majors, this`total, this`warnings
      ensures maj == grant
      ensures grant == 0 ==> majors == old(majors) && total == old(total) && warnings == old(warnings) + 1
      ensures grant != 0 ==>
        var st := PagesFor(size);
        majors == old(majors)[grant := Major(0, 0, st, st * PAGE_SIZE, HEADER, 0)] && total == old(total) + st * PAGE_SIZE &&
        warnings == old(warnings)
    {
      var st := size + HEADER;
      st := st + HEADER;
      if st % PAGE_SIZE == 0 {
        st := st / PAGE_SIZE;
      } else {
        st := st / PAGE_SIZE + 1;
      }
      if st < MIN_PAGES {
        st := MIN_PAGES;
      }
      maj := grant;
      if maj == 0 {
        warnings := warnings + 1;
        return;
      }
      majors := majors[maj := Major(0, 0, st, st * PAGE_SIZE, HEADER, 0)];
      total := total + st * PAGE_SIZE;
    }

    /** `ALIGN`: moves a block's first byte up to an aligned payload and stores the distance in front of it. */
    method Align(at: nat, ghost b: Block) returns (p: nat)
      requires at == b.addr + HEADER && b.End() <= mem.Length
      requires b.req + ALIGNMENT + ALIGN_INFO <= b.size
      modifies mem
      ensures p == b.Payload()
      ensures mem[..] == old(mem[..])[b.TagAt() := b.Tag()]
    {
      p := at + ALIGN_INFO;
      var diff := p % ALIGNMENT;
      if diff != 0 {
        diff := ALIGNMENT - diff;
        p := p + diff;
      }
      mem[p - ALIGN_INFO] := diff + ALIGN_INFO;
    }

    /** The lines that end every placement case: usage, totals and the aligned pointer. */
    method FinishPlacement(maj: nat, at: nat, req: nat, ghost k: nat, ghost j: nat,
                           ghost majors0: map<nat, Major>, ghost minors0: map<nat, Minor>) returns (p: nat)
      requires WellFormed(view) && HeadersMatch(view, majors0, minors0) && TagsMatch(view, mem[..])
      requires root == RegionAddr(view, 0) && (bestBet == 0 || IsRegionAddr(view, bestBet))
      requires inUse == InUse(view) && total == TotalSize(view)
      requires k < |view| && j <= |view[k].blocks| && view[k].Fits(j, Need(req))
      requires maj == view[k].addr && at == view[k].GapStart(j)
      requires LinkedIn(view[k], j, NewBlock(view, k, j, req), minors0, minors)
      requires majors == majors0[maj := MajorOf(view, k).(first := BlockAddr(view[k].Insert(j, NewBlock(view, k, j, req)), 0))]
      modifies this`majors, this`minors, this`inUse, this`view, mem
      ensures Core()
      ensures Placed(old(view), req, k, j, p, view)
      ensures mem[..] == old(mem[..])[NewBlock(old(view), k, j, req).TagAt() := NewBlock(old(view), k, j, req).Tag()]
    {
      hide WellFormed, HeadersMatch, TagsMatch, InUse, TotalSize, LinkedIn, Used, IsRegionAddr, RegionAddr;
      ghost var b := NewBlock(view, k, j, req);
      ghost var w := view[k := view[k].Insert(j, b)];
      PlacementDescribed(view, k, j, req, bestBet, majors0, minors0, minors, mem[..]);
      MemIsAddressSpace(view, mem[..]);
      var size := req + ALIGNMENT + ALIGN_INFO;
      majors := majors[maj := majors[maj].(usage := majors[maj].usage + (size + HEADER))];
      inUse := inUse + size;
      p := Align(at + HEADER, b);
      HeaderAfterInsert(view, k, j, b);
      assert majors == majors0[maj := MajorOf(w, k)];
      view := w;
    }

    /** CASE 2: the region holds no block yet. */
    method PlaceInEmpty(maj: nat, req: nat, ghost k: nat) returns (p: nat)
      requires Core() && k < |view| && maj == view[k].addr && view[k].blocks == [] && view[k].Fits(0, Need(req))
      modifies this`majors, this`minors, this`inUse, this`view, mem
      ensures Core() && Placed(old(view), req, k, 0, p, view)
      ensures mem[..] == old(mem[..])[NewBlock(old(view), k, 0, req).TagAt() := NewBlock(old(view), k, 0, req).Tag()]
    {
      hide WellFormed, HeadersMatch, TagsMatch, InUse, TotalSize, Used, IsRegionAddr;
      ghost var majors0, minors0 := majors, minors;
      MajorHeader(view, k, majors, minors);
      var size := req + ALIGNMENT + ALIGN_INFO;
      var at := maj + HEADER;
      majors := majors[maj := majors[maj].(first := at)];
      minors := minors[at := Minor(0, 0, maj, MAGIC, size, req)];
      p := FinishPlacement(maj, at, req, k, 0, majors0, minors0);
    }

    /** CASE 3: room in front of the first block. */
    method PlaceAtFront(maj: nat, req: nat, ghost k: nat) returns (p: nat)
      requires Core() && k < |view| && maj == view[k].addr && view[k].blocks != [] && view[k].Fits(0, Need(req))
      modifies this`majors, this`minors, this`inUse, this`view, mem
      ensures Core() && Placed(old(view), req, k, 0, p, view)
      ensures mem[..] == old(mem[..])[NewBlock(old(view), k, 0, req).TagAt() := NewBlock(old(view), k, 0, req).Tag()]
    {
      hide WellFormed, HeadersMatch, TagsMatch, InUse, TotalSize, Used, IsRegionAddr;
      ghost var majors0, minors0 := majors, minors;
      MajorHeader(view, k, majors, minors);
      MinorHeader(view, k, 0, majors, minors);
      var size := req + ALIGNMENT + ALIGN_INFO;
      var at := maj + HEADER;
      var first := majors[maj].first;
      minors := minors[first := minors[first].(prev := at)];
      majors := majors[maj := majors[maj].(first := at)];
      minors := minors[at := Minor(0, first, maj, MAGIC, size, req)];
      p := FinishPlacement(maj, at, req, k, 0, majors0, minors0);
    }

    /** CASE 4.1: room behind the last block, at address `min`. */
    method PlaceAtEnd(maj: nat, min: nat, req: nat, ghost k: nat) returns (p: nat)
      requires Core() && k < |view| && maj == view[k].addr && view[k].blocks != []
      requires min == view[k].blocks[|view[k].blocks| - 1].addr && view[k].Fits(|view[k].blocks|, Need(req))
      modifies this`majors, this`minors, this`inUse, this`view, mem
      ensures Core() && Placed(old(view), req, k, |old(view)[k].blocks|, p, view)
      ensures var b := NewBlock(old(view), k, |old(view)[k].blocks|, req); mem[..] == old(mem[..])[b.TagAt() := b.Tag()]
    {
      hide WellFormed, HeadersMatch, TagsMatch, InUse, TotalSize, Used, IsRegionAddr;
      ghost var majors0, minors0, j := majors, minors, |view[k].blocks|;
      MajorHeader(view, k, majors, minors);
      MinorHeader(view, k, j - 1, majors, minors);
      var size := req + ALIGNMENT + ALIGN_INFO;
      var at := min + HEADER + minors[min].size;
      minors := minors[min := minors[min].(next := at)];
      minors := minors[at := Minor(min, 0, maj, MAGIC, size, req)];
      assert BlockAddr(view[k].Insert(j, NewBlock(view, k, j, req)), 0) == MajorOf(view, k).first;
      assert majors == majors0[maj := MajorOf(view, k)];
      p := FinishPlacement(maj, at, req, k, j, majors0, minors0);
    }

    /** CASE 4.2: room between the block at address `min` and the next one. */
    method PlaceBetween(maj: nat, min: nat, req: nat, ghost k: nat, ghost j: nat) returns (p: nat)
      requires Core() && k < |view| && maj == view[k].addr && 0 < j < |view[k].blocks|
      requires min == view[k].blocks[j - 1].addr && view[k].Fits(j, Need(req))
      modifies this`majors, this`minors, this`inUse, this`view, mem
      ensures Core() && Placed(old(view), req, k, j, p, view)
      ensures mem[..] == old(mem[..])[NewBlock(old(view), k, j, req).TagAt() := NewBlock(old(view), k, j, req).Tag()]
    {
      hide WellFormed, HeadersMatch, TagsMatch, InUse, TotalSize, Used, IsRegionAddr;
      ghost var majors0, minors0 := majors, minors;
      MajorHeader(view, k, majors, minors);
      MinorHeader(view, k, j - 1, majors, minors);
      MinorHeader(view, k, j, majors, minors);
      var size := req + ALIGNMENT + ALIGN_INFO;
      var at := min + HEADER + minors[min].size;
      var next := minors[min].next;
      minors := minors[at := Minor(min, next, maj, MAGIC, size, req)];
      minors := minors[next := minors[next].(prev := at)];
      minors := minors[min := minors[min].(next := at)];
      assert BlockAddr(view[k].Insert(j, NewBlock(view, k, j, req)), 0) == MajorOf(view, k).first;
      assert majors == majors0[maj := MajorOf(view, k)];
      p := FinishPlacement(maj, at, req, k, j, majors0, minors0);
    }

    /** The first call: the root region is requested from the page provider. */
    method CreateRoot(req: nat, grant: nat)
      requires Core() && view == []
      requires grant == 0 || GrantOk(view, grant, PagesFor(SizeFor(req)))
      modifies this`root, this`majors, this`total, this`warnings, this`view
      ensures root == grant && warnings == old(warnings) + if grant == 0 then 1 else 0
      ensures Core() && view == if grant == 0 then [] else [EmptyRegion(req, grant)]
    {
      hide WellFormed, HeadersMatch, TagsMatch, InUse, TotalSize, Used, IsRegionAddr;
      ghost var majors0 := majors;
      root := AllocateNewPage(req + ALIGNMENT + ALIGN_INFO, grant);
      if root != 0 {
        ghost var e := EmptyRegion(req, grant);
        LastHeader(view, e);
        assert MajorAppended(view, e, majors0, majors);
        AppendDescribed(view, req, grant, bestBet, majors0, majors, minors, mem[..]);
        assert view + [e] == [e];
        view := [e];
      }
    }

    /** A further region is requested and linked behind the last one. */
    method AppendMajor(maj: nat, req: nat, grant: nat) returns (added: nat)
      requires Core() && view != [] && maj == view[|view| - 1].addr
      requires grant == 0 || GrantOk(view, grant, PagesFor(SizeFor(req)))
      modifies this`majors, this`total, this`warnings, this`view
      ensures added == grant && warnings == old(warnings) + if grant == 0 then 1 else 0
      ensures Core() && view == if grant == 0 then old(view) else old(view) + [EmptyRegion(req, grant)]
    {
      hide WellFormed, HeadersMatch, TagsMatch, InUse, TotalSize, Used, IsRegionAddr;
      ghost var majors0 := majors;
      MajorHeader(view, |view| - 1, majors, minors);
      added := AllocateNewPage(req + ALIGNMENT + ALIGN_INFO, grant);
      if added != 0 {
        GrantIsNew(view, grant, PagesFor(SizeFor(req)), |view| - 1);
      }
      majors := majors[maj := majors[maj].(next := added)];
      if added == 0 {
        assert majors == majors0;
        return;
      }
      majors := majors[added := majors[added].(prev := maj)];
      ghost var e := EmptyRegion(req, grant);
      LastHeader(view, e);
      assert MajorAppended(view, e, majors0, majors);
      AppendDescribed(view, req, grant, bestBet, majors0, majors, minors, mem[..]);
      view := view + [e];
    }

    /** CASES 2 to 4 for one region: the leftmost gap that fits takes the block, or no gap fits. */
    method PlaceInRegion(maj: nat, req: nat, ghost k: nat) returns (p: nat, ghost j: nat)
      requires Core() && k < |view| && maj == view[k].addr
      requires view[k].blocks == [] ==> view[k].Fits(0, Need(req))
      modifies this`majors, this`minors, this`inUse, this`view, mem
      ensures Core()
      ensures p == 0 ==> unchanged(this) && unchanged(mem) && view[k].NoGapFits(Need(req))
      ensures p != 0 ==> Placed(old(view), req, k, j, p, view)
      ensures p != 0 ==> forall i: nat :: i < j ==> !old(view)[k].Fits(i, Need(req))
      ensures p != 0 ==> forall a :: 0 <= a < mem.Length && a != p - ALIGN_INFO ==> mem[a] == old(mem[a])
    {
      hide WellFormed, HeadersMatch, TagsMatch, InUse, TotalSize, Used, IsRegionAddr;
      var size := req + ALIGNMENT + ALIGN_INFO;
      MajorHeader(view, k, majors, minors);
      j := 0;
      if majors[maj].first == 0 {
        FirstBlockIsNull(view, k);
        p := PlaceInEmpty(maj, req, k);
        return;
      }
      FirstBlockIsNull(view, k);
      var diff := majors[maj].first - maj - HEADER;
      if diff >= size + HEADER {
        p := PlaceAtFront(maj, req, k);
        return;
      }
      var min := majors[maj].first;
      while min != 0
        invariant unchanged(this) && unchanged(mem)
        invariant j <= |view[k].blocks| && min == BlockAddr(view[k], j) && (min == 0 ==> j == |view[k].blocks|)
        invariant forall i: nat :: i <= j ==> !view[k].Fits(i, Need(req))
        decreases |view[k].blocks| - j
      {
        MinorHeader(view, k, j, majors, minors);
        if j + 1 < |view[k].blocks| {
          MinorHeader(view, k, j + 1, majors, minors);
        }
        if minors[min].next == 0 {
          diff := maj + majors[maj].size - min - HEADER - minors[min].size;
          if diff >= size + HEADER {
            p := PlaceAtEnd(maj, min, req, k);
            j := j + 1;
            return;
          }
        }
        if minors[min].next != 0 {
          diff := minors[min].next - min - HEADER - minors[min].size;
          if diff >= size + HEADER {
            p := PlaceBetween(maj, min, req, k, j + 1);
            j := j + 1;
            return;
          }
        }
        min := minors[min].next;
        j := j + 1;
      }
      p := 0;
    }

    /** Region `i` has no room: hop to the next one, start over at the root if the search began at the
        best bet, or else append a region (cases 1 and 5). */
    method LeaveRegion(req: nat, grant: nat, maj: nat, startedBet: bool, ghost v0: View, ghost start: nat, ghost i: nat)
        returns (maj': nat, startedBet': bool, asked: bool, ghost i': nat)
      requires Core() && view == v0 && i < |view| && maj == view[i].addr
      requires grant == 0 || GrantOk(view, grant, PagesFor(SizeFor(req)))
      requires Passed(v0, Need(req), startedBet, start, i) && v0[i].NoGapFits(Need(req))
      modifies this`majors, this`total, this`warnings, this`view
      ensures Core() && warnings == old(warnings) + if asked && grant == 0 then 1 else 0
      ensures !asked ==> view == v0 && i' < |v0| && maj' == v0[i'].addr && maj' > 0 && Passed(v0, Need(req), startedBet', start, i')
      ensures !asked ==> (startedBet && !startedBet' && i' == 0 && i + 1 == |v0|) || (startedBet == startedBet' && i' == i + 1)
      ensures asked ==> NoFit(v0, Need(req)) && !startedBet && !startedBet' && maj' == grant && i' == i + 1 == |v0|
      ensures asked ==> view == if grant == 0 then v0 else v0 + [EmptyRegion(req, grant)]
    {
      hide WellFormed, HeadersMatch, TagsMatch, InUse, TotalSize, Used, IsRegionAddr, GrantOk, PagesFor, Passed, NoFit,
           Region.NoGapFits, Region.Usage, Region.Size;
      ghost var need: nat := Need(req);
      RegionFacts(view, i, need, majors, minors);
      PassedNext(v0, need, startedBet, start, i);
      maj', startedBet', asked, i' := majors[maj].next, startedBet, false, i + 1;
      if maj' != 0 {
        RegionFacts(view, i + 1, need, majors, minors);
        return;
      }
      if startedBet {
        RegionFacts(view, 0, need, majors, minors);
        PassedRestart(v0, need, start);
        maj', startedBet', i' := root, false, 0;
        return;
      }
      PassedAll(v0, need, start);
      asked := true;
      maj' := AppendMajor(maj, req, grant);
    }

    /** The same, with what the search has looked at so far: `seen`, region `i` included. */
    method MoveOn(req: nat, grant: nat, maj: nat, startedBet: bool, ghost v0: View, ghost start: nat, ghost i: nat,
                  ghost again: bool, ghost seen: set<nat>, ghost bet0: nat, ghost bestSize: int)
        returns (maj': nat, startedBet': bool, asked: bool, ghost i': nat, ghost again': bool)
      requires Core() && view == v0 && i < |view| && maj == view[i].addr
      requires grant == 0 || GrantOk(view, grant, PagesFor(SizeFor(req)))
      requires Passed(v0, Need(req), startedBet, start, i) && v0[i].NoGapFits(Need(req))
      requires LookedTo(v0, Need(req), startedBet, again, start, i, seen) && Track(v0, bet0, bestBet, bestSize, seen + {i})
      requires bet0 == 0 || IsRegionAddr(v0, bet0)
      modifies this`majors, this`total, this`warnings, this`view
      ensures Core() && warnings == old(warnings) + if asked && grant == 0 then 1 else 0
      ensures Track(view, bet0, bestBet, bestSize, seen + {i})
      ensures !asked ==> view == v0 && i' < |v0| && maj' == v0[i'].addr && maj' > 0 && Passed(v0, Need(req), startedBet', start, i')
      ensures !asked ==> LookedTo(v0, Need(req), startedBet', again', start, i', seen + {i})
      ensures !asked ==> (startedBet && !startedBet') || (startedBet == startedBet' && i' == i + 1)
      ensures asked ==> NoFit(v0, Need(req)) && !startedBet' && maj' == grant && i' == |v0| && seen + {i} == Span(0, |v0|)
      ensures asked ==> (LooksAtNew(v0, Need(req), grant) <==> grant != 0 && v0[i].FreeBytes() >= Need(req))
      ensures asked ==> view == if grant == 0 then v0 else v0 + [EmptyRegion(req, grant)]
    {
      hide WellFormed, HeadersMatch, TagsMatch, InUse, TotalSize, Used, IsRegionAddr, GrantOk, PagesFor, Passed, NoFit,
           Region.NoGapFits, Region.FreeBytes, LookedTo, Track;
      LookedOn(v0, Need(req), startedBet, again, start, i, seen);
      maj', startedBet', asked, i' := LeaveRegion(req, grant, maj, startedBet, v0, start, i);
      again' := again || (startedBet && !startedBet');
      if asked && grant != 0 {
        NotTheGrant(v0, bet0, grant, PagesFor(SizeFor(req)));
        NotTheGrant(v0, bestBet, grant, PagesFor(SizeFor(req)));
        TrackAppend(v0, EmptyRegion(req, grant), bet0, bestBet, bestSize, seen + {i});
      }
      hide EmptyRegion;
    }

    /** The look at a region on the way: the hint moves there if the region has more bytes free. */
    method Look(maj: nat, bestSize: int, ghost i: nat, ghost bet0: nat, ghost seen: set<nat>) returns (bestSize': int, diff: int)
      requires Core() && i < |view| && maj == view[i].addr && Track(view, bet0, bestBet, bestSize, seen)
      modifies this`bestBet
      ensures Core() && diff == view[i].FreeBytes() && Track(view, bet0, bestBet, bestSize', seen + {i})
    {
      hide WellFormed, HeadersMatch, TagsMatch, InUse, TotalSize, Used, IsRegionAddr, Track;
      MajorHeader(view, i, majors, minors);
      RegionIsFound(view, i);
      TrackLooks(view, bet0, bestBet, bestSize, seen, i);
      diff := majors[maj].size - majors[maj].usage;
      bestSize' := bestSize;
      if bestSize < diff {
        bestBet := maj;
        bestSize' := diff;
      }
    }

    /** The search loop of `malloc`, from region `maj`; `v0` is the heap when `malloc` was called. */
    method Search(req: nat, grant: nat, from: nat, fromBet: bool, sizeOfBet: int, askedForRoot: bool,
                  ghost v0: View, ghost bet0: nat, ghost start: nat, ghost k: nat) returns (p: nat, asked: bool)
      requires Core() && NoneEmpty(v0) && k < |view| && from == view[k].addr && from > 0
      requires grant == 0 || GrantOk(v0, grant, PagesFor(SizeFor(req)))
      requires !askedForRoot ==> view == v0 && IsScanStart(v0, bet0, Need(req), start) && Passed(v0, Need(req), fromBet, start, k)
      requires !askedForRoot ==> LookedTo(v0, Need(req), fromBet, false, start, k, {})
      requires askedForRoot ==>
        grant != 0 && !fromBet && v0 == [] && view == v0 + [EmptyRegion(req, grant)] && k == |v0| && NoFit(v0, Need(req))
      requires (bet0 == 0 || IsRegionAddr(v0, bet0)) && Track(view, bet0, bestBet, sizeOfBet, {})
      modifies this`majors, this`minors, this`inUse, this`total, this`warnings, this`bestBet, this`view, mem
      ensures Valid()
      ensures MallocStep(v0, bet0, req, grant, p, view) && HintAfterMalloc(v0, bet0, req, grant, bestBet)
      ensures asked <==> NoFit(v0, Need(req))
      ensures p == 0 <==> asked && grant == 0
      ensures warnings == old(warnings) + if p == 0 then 1 else 0
      ensures forall a :: 0 <= a < mem.Length && (p == 0 || a != p - ALIGN_INFO) ==> mem[a] == old(mem[a])
    {
      hide WellFormed, HeadersMatch, TagsMatch, InUse, TotalSize, Used, IsRegionAddr, MallocStep, IsScanStart, GrantOk, PagesFor,
           Passed, NoFit, Placed, Region.NoGapFits, Region.Usage, Region.Size, Region.FreeBytes, NewBlock, Track, LookedTo,
           HintAfterMalloc, LooksAtNew, Span;
      ghost var need: nat, i: nat, seen: set<nat>, again := Need(req), k, {}, false;
      var size := req + ALIGNMENT + ALIGN_INFO;
      var maj, startedBet, bestSize := from, fromBet, sizeOfBet;
      asked := askedForRoot;
      if asked {
        RootIsLookedAt(need, grant);
      }
      while maj != 0
        invariant Core() && unchanged(mem) && warnings == old(warnings) + if maj == 0 then 1 else 0
        invariant maj != 0 ==> i < |view| && maj == view[i].addr
        invariant Track(view, bet0, bestBet, bestSize, seen)
        invariant !asked ==> maj != 0 && view == v0 && IsScanStart(v0, bet0, need, start) && Passed(v0, need, startedBet, start, i)
        invariant !asked ==> LookedTo(v0, need, startedBet, again, start, i, seen)
        invariant asked ==> maj == grant && !startedBet && i == |v0| && NoFit(v0, need) && seen == Span(0, |v0|)
        invariant asked ==> (LooksAtNew(v0, need, grant) <==> grant != 0)
        invariant asked ==> view == if grant == 0 then v0 else v0 + [EmptyRegion(req, grant)]
        decreases if startedBet then 1 else 0, |v0| + 1 - i
      {
        if asked {
          EmptyRegionFits(v0, req, grant);
          NewIsLookedAt(|v0|);
        }
        EnoughBytes(view, i, need);
        var diff;
        ghost var seen0 := seen;
        bestSize, diff := Look(maj, bestSize, i, bet0, seen);
        seen := seen + {i};
        if diff < size + HEADER {
          maj, startedBet, asked, i, again := MoveOn(req, grant, maj, startedBet, v0, start, i, again, seen0, bet0, bestSize);
          if maj == 0 {
            break;
          }
          if !asked {
            continue;
          }
          EmptyRegionFits(v0, req, grant);
        }
        ghost var v1 := view;
        ghost var j;
        p, j := PlaceInRegion(maj, req, i);
        if p != 0 {
          FoundIsMalloc(v0, bet0, req, grant, start, i, j, p, v1, view, bestBet, bestSize, startedBet, again, asked, seen0, seen);
          return;
        }
        maj, startedBet, asked, i, again := MoveOn(req, grant, maj, startedBet, v0, start, i, again, seen0, bet0, bestSize);
      }
      RefusedIsMallocStep(v0, bet0, req);
      AskedHint(v0, bet0, req, grant, bestBet, bestSize, seen);
      p := 0;
    }

    /** `malloc`. `grant` is what the page provider would answer for the pages this request needs;
        `asked` tells whether it was consulted. */
    method Malloc(req: nat, grant: nat) returns (p: nat, asked: bool)
      requires Valid() && NoWrap(req)
      requires grant == 0 || GrantOk(view, grant, PagesFor(SizeFor(req)))
      modifies this`root, this`majors, this`minors, this`inUse, this`total, this`warnings, this`bestBet, this`view, mem
      ensures Valid()
      ensures MallocStep(old(view), old(bestBet), req, grant, p, view)
      ensures HintAfterMalloc(old(view), old(bestBet), req, grant, bestBet)
      ensures asked <==> NoFit(old(view), Need(req))
      ensures p == 0 <==> asked && grant == 0
      ensures warnings == old(warnings) + if p == 0 then 1 else 0
      ensures inUse == old(inUse) + if p == 0 then 0 else req + 32
      ensures total == old(total) + if asked && grant != 0 then 4096 * PagesFor(req + 32) else 0
      ensures forall a :: 0 <= a < mem.Length && (p == 0 || a != p - ALIGN_INFO) ==> mem[a] == old(mem[a])
    {
      hide WellFormed, HeadersMatch, TagsMatch, InUse, TotalSize, Used, IsRegionAddr, MallocStep, IsScanStart, GrantOk, PagesFor,
           Passed, NoFit, Placed, Track, LookedTo, HintAfterMalloc, Region.FreeBytes, LooksAtNew;
      ghost var v0, bet0, need := view, bestBet, Need(req);
      var size := req + ALIGNMENT + ALIGN_INFO;
      asked := false;
      if view != [] {
        RegionFacts(view, 0, need, majors, minors);
      }
      if root == 0 {
        if bestBet != 0 {
          ghost var bet := FindRegion(view, bestBet);
        }
        asked := true;
        CreateRoot(req, grant);
        PassedNothing(v0, need, 0);
        PassedAll(v0, need, 0);
        if root == 0 {
          RefusedIsMallocStep(v0, bet0, req);
          NoRootNoHint(req);
          p := 0;
          return;
        }
      }
      var maj := root;
      ghost var i: nat, start: nat := 0, 0;
      NoBetStartsAtRoot(v0, need);
      PassedNothing(v0, need, 0);
      LookedAtNone(v0, need, 0);
      var startedBet := false;
      var bestSize: int := 0;
      if bestBet != 0 {
        ghost var bet := FindRegion(view, bestBet);
        RegionFacts(view, bet, need, majors, minors);
        BetIsScanStart(view, bestBet, need, bet);
        bestSize := majors[bestBet].size - majors[bestBet].usage;
        if bestSize > size + HEADER {
          maj := bestBet;
          startedBet := true;
          i, start := bet, bet;
          PassedNothing(v0, need, start);
          LookedAtNone(v0, need, start);
        }
        BytesOfHint(view, bet, bestSize);
      }
      TrackStarts(view, bestBet, bestSize);
      p, asked := Search(req, grant, maj, startedBet, bestSize, asked, v0, bet0, start, i);
      MallocAddsBytes(v0, bet0, req, grant, p, view);
    }

    /** The first half of `free`: the block at address `min` leaves its region's list. */
    method UnlinkMinor(min: nat, ghost k: nat, ghost j: nat) returns (maj: nat)
      requires Core() && IsSlot(view, k, j) && min == view[k].blocks[j].addr
      modifies this`inUse, this`majors, this`minors
      ensures maj == view[k].addr && inUse == old(inUse) - view[k].blocks[j].size
      ensures LinkedOut(view[k], j, old(minors), minors)
      ensures majors == old(majors)[maj := MajorOf(view[k := view[k].Remove(j)], k)]
    {
      hide WellFormed, HeadersMatch, TagsMatch, InUse, TotalSize, Used, IsRegionAddr, LinkedOut;
      MajorHeader(view, k, majors, minors);
      UnlinkedIsLinkedOut(view, k, j, majors, minors);
      HeaderAfterRemove(view, k, j);
      InUseCoversBlock(view, k, j);
      maj := minors[min].block;
      inUse := inUse - minors[min].size;
      majors := majors[maj := majors[maj].(usage := majors[maj].usage - (minors[min].size + HEADER))];
      minors := minors[min := minors[min].(magic := DEAD)];
      if minors[min].next != 0 {
        var next := minors[min].next;
        minors := minors[next := minors[next].(prev := minors[min].prev)];
      }
      if minors[min].prev != 0 {
        var prev := minors[min].prev;
        minors := minors[prev := minors[prev].(next := minors[min].next)];
      }
      if minors[min].prev == 0 {
        majors := majors[maj := majors[maj].(first := minors[min].next)];
      }
    }

    /** The second half of `free` for an emptied region: it leaves the list and its pages go back to the page provider, with
        every header that was stored on them. */
    method DropMajor(maj: nat, ghost k: nat, ghost majors0: map<nat, Major>, ghost minors0: map<nat, Minor>)
      requires WellFormed(view) && HeadersMatch(view, majors0, minors0) && TagsMatch(view, mem[..])
      requires root == RegionAddr(view, 0) && (bestBet == 0 || IsRegionAddr(view, bestBet)) && total == TotalSize(view)
      requires IsSlot(view, k, 0) && |view[k].blocks| == 1 && maj == view[k].addr
      requires inUse == InUse(view) - view[k].blocks[0].size && LinkedOut(view[k], 0, minors0, minors)
      requires majors == majors0[maj := MajorOf(view[k := view[k].Remove(0)], k)]
      modifies this`root, this`bestBet, this`total, this`majors, this`minors, this`view
      ensures Core() && view == old(view)[..k] + old(view)[k + 1..]
      ensures bestBet == if old(bestBet) == maj then 0 else old(bestBet)
      ensures minors == Released(old(minors), maj, old(view)[k].End())
    {
      hide WellFormed, HeadersMatch, TagsMatch, InUse, TotalSize, Used, IsRegionAddr, LinkedOut, MajorLinkedOut, Released;
      ghost var header := MajorOf(view[k := view[k].Remove(0)], k);
      MajorUnlinkedIsLinkedOut(view, k, majors0, minors0, header);
      DropDescribed(view, k, bestBet, majors0, MajorUnlinked(majors, maj), minors0, minors, mem[..]);
      TotalCoversRegion(view, k);
      if k > 0 {
        RegionAddrsDiffer(view, 0, k);
      }
      if root == maj {
        root := majors[maj].next;
      }
      if bestBet == maj {
        bestBet := 0;
      }
      if majors[maj].prev != 0 {
        var prev := majors[maj].prev;
        majors := majors[prev := majors[prev].(next := majors[maj].next)];
      }
      if majors[maj].next != 0 {
        var next := majors[maj].next;
        majors := majors[next := majors[next].(prev := majors[maj].prev)];
      }
      total := total - majors[maj].size;
      var end := maj + majors[maj].size;
      majors, minors := Released(majors, maj, end), Released(minors, maj, end);
      view := view[..k] + view[k + 1..];
    }

    /** The second half of `free` for a region that keeps other blocks: only the hint may move. */
    method KeepMajor(maj: nat, ghost k: nat, ghost j: nat, ghost majors0: map<nat, Major>, ghost minors0: map<nat, Minor>)
      requires WellFormed(view) && HeadersMatch(view, majors0, minors0) && TagsMatch(view, mem[..])
      requires root == RegionAddr(view, 0) && (bestBet == 0 || IsRegionAddr(view, bestBet)) && total == TotalSize(view)
      requires IsSlot(view, k, j) && maj == view[k].addr
      requires inUse == InUse(view) - view[k].blocks[j].size && LinkedOut(view[k], j, minors0, minors)
      requires majors == majors0[maj := MajorOf(view[k := view[k].Remove(j)], k)]
      modifies this`bestBet, this`view
      ensures Core() && view == old(view)[k := old(view)[k].Remove(j)]
      ensures minors == old(minors)
      ensures |old(view)[k].blocks| > 1 ==> HintAfterFree(old(view), k, j, old(bestBet), bestBet)
    {
      hide WellFormed, HeadersMatch, TagsMatch, InUse, TotalSize, Used, IsRegionAddr, LinkedOut;
      RemovalDescribed(view, k, j, bestBet, majors0, minors0, minors, mem[..]);
      view := view[k := view[k].Remove(j)];
      RegionIsFound(view, k);
      if bestBet != 0 {
        ghost var m := FindRegion(view, bestBet);
        MajorHeader(view, m, majors, minors);
        MajorHeader(view, k, majors, minors);
        WorthAt(view, m);
        var bestSize := AsInt(majors[bestBet].size - majors[bestBet].usage);
        var majSize := AsInt(majors[maj].size - majors[maj].usage);
        if majSize > bestSize {
          bestBet := maj;
        }
      }
    }

    /** `free`. A pointer whose header has lost its magic is counted as an error and changes nothing else. */
    method Free(ptr: nat)
      requires Valid()
      requires ptr == 0 || HeaderReadable(mem[..], minors, ptr)
      modifies this
      ensures Valid()
      ensures ptr == 0 ==> unchanged(`view, `majors, `minors, `bestBet, `errors, `overruns) && warnings == old(warnings) + 1
      ensures ptr != 0 && old(minors)[HeaderOf(mem[..], ptr)].magic == MAGIC ==>
        unchanged(`errors, `overruns, `warnings) && exists k: nat, j: nat ::
          Freed(old(view), k, j, view) && old(view)[k].blocks[j].addr == HeaderOf(mem[..], ptr) &&
          HeaderFreed(old(view), k, j, minors) && HintAfterFree(old(view), k, j, old(bestBet), bestBet)
      ensures ptr != 0 && old(minors)[HeaderOf(mem[..], ptr)].magic != MAGIC ==>
        unchanged(`view, `majors, `minors, `bestBet, `warnings) && errors == old(errors) + 1 &&
        overruns == old(overruns) + if LooksOverrun(old(minors)[HeaderOf(mem[..], ptr)].magic) then 1 else 0
      ensures IsLive(old(view), ptr) ==> ptr != 0 && FreeStep(old(view), ptr, view)
    {
      hide WellFormed, HeadersMatch, TagsMatch, InUse, TotalSize, Used, IsRegionAddr, LinkedOut, IsBlockAddr, IsLive, FreeStep, Released, Worth,
           Region.FreeBytes;
      LivePointer(view, ptr, majors, minors, mem[..]);
      if ptr == 0 {
        warnings := warnings + 1;
        return;
      }
      var diff := mem[ptr - ALIGN_INFO];
      var min := (if diff < ALIGNMENT + ALIGN_INFO then ptr - diff else ptr) - HEADER;
      if minors[min].magic != MAGIC {
        errors := errors + 1;
        if LooksOverrun(minors[min].magic) {
          overruns := overruns + 1;
        }
        return;
      }
      ghost var v0, majors0, minors0 := view, majors, minors;
      ghost var k, j := LiveHeader(view, min, majors, minors);
      var maj := UnlinkMinor(min, k, j);
      UnlinkedHeaderIsDead(view[k], j, minors0, minors);
      if majors[maj].first == 0 {
        EmptiedRegion(view, k, j);
        ReleasedHeaderIsGone(view, k, minors);
        DropMajor(maj, k, majors0, minors0);
      } else {
        EmptiedRegion(view, k, j);
        KeepMajor(maj, k, j, majors0, minors0);
      }
      FreedIsFreeStep(v0, ptr, k, j, majors0, minors0, mem[..], view);
      FreedKeepsSound(v0, k, j, view);
    }

    /** The word loop of `liballoc_memcpy`; `left` bytes remain to be copied. */
    method CopyWords(dst: nat, src: nat, n: nat) returns (left: nat)
      requires dst + n <= mem.Length && src + n <= mem.Length && (dst + n <= src || src + n <= dst)
      modifies mem
      ensures left <= n && left < 4
      ensures forall a :: dst <= a < dst + n - left ==> mem[a] == old(mem[a - dst + src])
      ensures forall a :: 0 <= a < mem.Length && !(dst <= a < dst + n - left) ==> mem[a] == old(mem[a])
    {
      var d: nat, s: nat := dst, src;
      left := n;
      while left >= 4
        invariant left <= n && d == dst + (n - left) && s == src + (n - left)
        invariant forall a :: dst <= a < d ==> mem[a] == old(mem[a - dst + src])
        invariant forall a :: 0 <= a < mem.Length && !(dst <= a < d) ==> mem[a] == old(mem[a])
      {
        mem[d], mem[d + 1], mem[d + 2], mem[d + 3] := mem[s], mem[s + 1], mem[s + 2], mem[s + 3];
        d, s, left := d + 4, s + 4, left - 4;
      }
    }

    /** `liballoc_memcpy`: whole words first, then single bytes. */
    method CopyBytes(dst: nat, src: nat, n: nat)
      requires dst + n <= mem.Length && src + n <= mem.Length && (dst + n <= src || src + n <= dst)
      modifies mem
      ensures mem[dst..dst + n] == old(mem[src..src + n])
      ensures SameOutside(old(mem[..]), mem[..], dst, n)
    {
      var left: nat := CopyWords(dst, src, n);
      var d: nat, s: nat := dst + n - left, src + n - left;
      while left > 0
        invariant left <= n && d == dst + (n - left) && s == src + (n - left)
        invariant forall a :: dst <= a < d ==> mem[a] == old(mem[a - dst + src])
        invariant forall a :: 0 <= a < mem.Length && !(dst <= a < d) ==> mem[a] == old(mem[a])
      {
        mem[d] := mem[s];
        d, s, left := d + 1, s + 1, left - 1;
      }
    }

    /** A successful `malloc` followed by `free` of its result restores every region, block and total. */
    method MallocThenFree(req: nat, grant: nat) returns (p: nat)
      requires Valid() && NoWrap(req)
      requires grant == 0 || GrantOk(view, grant, PagesFor(SizeFor(req)))
      modifies this, mem
      ensures Valid() && view == old(view) && inUse == old(inUse) && total == old(total)
    {
      hide WellFormed, HeadersMatch, TagsMatch, InUse, TotalSize, Used, MallocStep, FreeStep;
      var asked;
      ghost var v0, bet0 := view, bestBet;
      p, asked := Malloc(req, grant);
      ghost var v1 := view;
      if p != 0 {
        MallocReturnsLive(v0, bet0, req, grant, p, v1);
        LivePointer(view, p, majors, minors, mem[..]);
        Free(p);
        FreeUndoesMalloc(v0, bet0, req, grant, p, v1, view);
      } else {
        RefusedLeavesHeap(v0, bet0, req, grant, v1);
      }
    }

    /** The header of a freed block can still be read, and a second `free` of the pointer is caught by it, exactly when the
        block's region kept another block. Otherwise the pages holding header and tag are gone; the second call, which the
        code makes all the same, has nothing to read and is not made here. */
    method FreeTwice(p: nat) returns (caught: bool)
      requires Valid() && IsLive(view, p)
      modifies this
      ensures Valid() && FreeStep(old(view), p, view)
      ensures caught <==> SharesRegion(old(view), p)
      ensures HeaderReadable(mem[..], minors, p) <==> SharesRegion(old(view), p)
      ensures errors == old(errors) + if caught then 1 else 0
    {
      hide WellFormed, HeadersMatch, TagsMatch, InUse, TotalSize, Used, FreeStep, SharesRegion, HeaderFreed, IsLive, HeaderReadable;
      ghost var v0, majors0, minors0 := view, majors, minors;
      LivePointer(view, p, majors, minors, mem[..]);
      HeaderAddress(mem[..], minors, p);
      Free(p);
      ghost var k: nat, j: nat :| Freed(v0, k, j, view) && v0[k].blocks[j].addr == HeaderOf(mem[..], p) && HeaderFreed(v0, k, j, minors);
      ReadableIffShared(v0, p, k, j, majors0, minors0, mem[..], minors);
      caught := HeaderReadable(mem[..], minors, p);
      if caught {
        Free(p);
      }
    }

    /** A heap of one block: a second `free` of it is not caught. */
    static method FreeLoneBlockTwice(mem: array<Byte>) returns (caught: bool)
      requires mem.Length == ADDRESS_SPACE
      modifies mem
      ensures !caught
    {
      var heap := new Heap(mem);
      var p, asked := heap.Malloc(1, PAGE_SIZE);
      LoneBlockIsAlone(1, PAGE_SIZE);
      caught := heap.FreeTwice(p);
    }

    /** The in-place half of `realloc`: the block already holds `size` bytes. */
    method Shrink(min: nat, size: nat, ghost k: nat, ghost j: nat)
      requires Valid() && IsSlot(view, k, j) && min == view[k].blocks[j].addr && size <= view[k].blocks[j].req
      modifies this`minors, this`view
      ensures Valid() && view == old(view)[k := old(view)[k].Resize(j, size)]
    {
      hide WellFormed, HeadersMatch, TagsMatch, InUse, TotalSize, Used, IsRegionAddr;
      HeadersAfterResize(view, k, j, size, majors, minors);
      ResizeDescribed(view, k, j, size, bestBet, mem[..]);
      minors := minors[min := minors[min].(reqSize := size)];
      view := view[k := view[k].Resize(j, size)];
    }

    /** The moving half of `realloc`: allocate, copy, free. */
    method Move(p: nat, oldSize: nat, size: nat, grant: nat, ghost k: nat, ghost j: nat) returns (q: nat)
      requires Valid() && NoWrap(size)
      requires IsSlot(view, k, j) && p == view[k].blocks[j].Payload() && oldSize == view[k].blocks[j].req && oldSize < size
      requires grant == 0 || GrantOk(view, grant, PagesFor(SizeFor(size)))
      requires grant != 0 || !NoFit(view, Need(size))
      modifies this, mem
      ensures Valid() && q != 0 && q != p
      ensures exists mid: View :: MallocStep(old(view), old(bestBet), size, grant, q, mid) && FreeStep(mid, p, view)
      ensures q + size <= mem.Length && p + oldSize <= mem.Length && mem[q..q + oldSize] == old(mem[p..p + oldSize])
      ensures OthersKept(old(view), p, old(mem[..]), mem[..])
    {
      hide WellFormed, HeadersMatch, TagsMatch, InUse, TotalSize, Used, IsRegionAddr, MallocStep, FreeStep, NoFit, GrantOk,
           HintAfterMalloc, PagesFor, NoneEmpty;
      ghost var v0, bet0 := view, bestBet;
      ghost var mem0 := mem[..];
      var asked;
      q, asked := Malloc(size, grant);
      ghost var v1, mem1 := view, mem[..];
      ghost var m, i := MallocSlot(v0, bet0, size, grant, q, v1);
      NewBlockApart(v0, v1, m, i, k, j);
      MemIsAddressSpace(v1, mem1);
      CopyBytes(q, p, oldSize);
      PayloadStoreKeepsTags(v1, m, i, mem1, mem[..]);
      MoveKeepsOthers(v0, v1, m, i, p, mem0, mem1, mem[..]);
      assert IsSlot(v0, k, j);
      assert IsLive(v1, p);
      LivePointer(view, p, majors, minors, mem[..]);
      Free(p);
      assert MallocStep(v0, bet0, size, grant, q, v1) && FreeStep(v1, p, view);
    }

    /** `realloc`, for a null pointer, a live one, or one whose header has lost its magic. */
    method Realloc(p: nat, size: nat, grant: nat) returns (q: nat)
      requires Valid() && NoWrap(size)
      requires grant == 0 || GrantOk(view, grant, PagesFor(SizeFor(size)))
      requires p == 0 || IsLive(view, p) || (HeaderReadable(mem[..], minors, p) && minors[HeaderOf(mem[..], p)].magic != MAGIC)
      requires MoveSucceeds(view, p, size, grant)
      modifies this, mem
      ensures Valid()
      ensures size == 0 ==> q == 0 && mem[..] == old(mem[..])
      ensures size == 0 && IsLive(old(view), p) ==> FreeStep(old(view), p, view)
      ensures size == 0 && !IsLive(old(view), p) ==> view == old(view)
      ensures size > 0 && p == 0 ==> MallocStep(old(view), old(bestBet), size, grant, q, view)
      ensures size > 0 && p != 0 && !IsLive(old(view), p) ==>
        q == 0 && mem[..] == old(mem[..]) && unchanged(`view, `majors, `minors, `bestBet, `warnings) && errors == old(errors) + 1 &&
        overruns == old(overruns) + if LooksOverrun(old(minors)[old(HeaderOf(mem[..], p))].magic) then 1 else 0
      ensures size > 0 && IsLive(old(view), p) ==>
        ReallocStep(old(view), old(bestBet), p, size, grant, q, view) &&
        ContentsCarried(old(view), p, size, q, old(mem[..]), mem[..]) && OthersKept(old(view), p, old(mem[..]), mem[..])
    {
      hide WellFormed, HeadersMatch, TagsMatch, InUse, TotalSize, Used, IsRegionAddr, MallocStep, FreeStep, GrantOk, IsLive, OthersKept,
           ContentsCarried, ResizeStep, NoFit;
      LivePointer(view, p, majors, minors, mem[..]);
      if size == 0 {
        Free(p);
        return 0;
      }
      if p == 0 {
        var asked;
        q, asked := Malloc(size, grant);
        return;
      }
      var diff := mem[p - ALIGN_INFO];
      var min := (if diff < ALIGNMENT + ALIGN_INFO then p - diff else p) - HEADER;
      if minors[min].magic != MAGIC {
        errors := errors + 1;
        if LooksOverrun(minors[min].magic) {
          overruns := overruns + 1;
        }
        return 0;
      }
      ghost var k, j := FindLive(view, p);
      MinorHeader(view, k, j, majors, minors);
      var realSize := minors[min].reqSize;
      ghost var v0, mem0 := view, mem[..];
      if realSize >= size {
        Shrink(min, size, k, j);
        q := p;
        MemIsAddressSpace(v0, mem0);
        ShrinkIsRealloc(v0, k, j, p, size, mem0);
        return;
      }
      q := Move(p, realSize, size, grant, k, j);
      MoveCarries(v0, k, j, p, size, q, mem0, mem[..]);
    }
  }
}
