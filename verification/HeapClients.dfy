/**
The heap as its clients see it, told from the calls alone: which pointers are owned and how many bytes were asked for,
how much is in use, and where a request goes.
*/
module HeapClients {
  import opened HeapLayout
  import opened HeapRuns
  import opened HeapHeaders
  import opened HeapStore

  /** The heap holds a block that was handed out as pointer `p` for `r` bytes. */
  ghost predicate Holds(v: View, p: nat, r: nat) {
    exists k: nat, j: nat :: IsSlot(v, k, j) && v[k].blocks[j].Payload() == p && v[k].blocks[j].req == r
  }

  /** What the clients own after the calls: every pointer handed out and not given back, with the bytes last asked for. */
  function Owned(calls: seq<Call>): set<(nat, nat)> {
    if calls == [] then {}
    else
      var before := Owned(calls[..|calls| - 1]);
      match calls[|calls| - 1]
      case Malloc(_, req, _, p) => if p == 0 then before else before + {(p, req)}
      case Free(p) => Without(before, p)
      case Realloc(_, p, req, _, q) => Without(before, p) + {(q, req)}
  }

  function Without(owned: set<(nat, nat)>, p: nat): set<(nat, nat)> {
    set h | h in owned && h.0 != p
  }

  // ----- One call

  lemma InsertHolds(v: View, k: nat, j: nat, b: Block, p: nat, r: nat)
    requires k < |v| && j <= |v[k].blocks|
    ensures Holds(v[k := v[k].Insert(j, b)], p, r) <==> Holds(v, p, r) || (b.Payload() == p && b.req == r)
  {
    var w := v[k := v[k].Insert(j, b)];
    forall m: nat, i: nat | IsSlot(w, m, i) && (m, i) != (k, j)
      ensures var i' := if m == k && i > j then i - 1 else i; IsSlot(v, m, i') && v[m].blocks[i'] == w[m].blocks[i]
    {
    }
    forall m: nat, i: nat | IsSlot(v, m, i)
      ensures IsSlot(w, m, Shifted(k, j, m, i)) && w[m].blocks[Shifted(k, j, m, i)] == v[m].blocks[i]
    {
    }
    assert IsSlot(w, k, j) && w[k].blocks[j] == b;
    hide Block.Payload, Region.Insert;
  }

  lemma AppendHolds(v: View, e: Region, b: Block, p: nat, r: nat)
    requires e.blocks == [b]
    ensures Holds(v + [e], p, r) <==> Holds(v, p, r) || (b.Payload() == p && b.req == r)
  {
    hide Block.Payload;
    var w := v + [e];
    forall m: nat, i: nat | IsSlot(v, m, i)
      ensures IsSlot(w, m, i) && w[m] == v[m]
    {
    }
    assert IsSlot(w, |v|, 0);
  }

  /** A successful `malloc` adds its result and nothing else. */
  lemma MallocHolds(v: View, bestBet: nat, req: nat, grant: nat, q: nat, w: View, p: nat, r: nat)
    requires MallocStep(v, bestBet, req, grant, q, w)
    ensures Holds(w, p, r) <==> Holds(v, p, r) || (q != 0 && p == q && r == req)
  {
    hide Block.Payload, IsScanStart, FirstFit, Holds;
    if NoFit(v, Need(req)) {
      if grant != 0 {
        PayloadPositive(FreshRegion(req, grant).blocks[0]);
        AppendHolds(v, FreshRegion(req, grant), FreshRegion(req, grant).blocks[0], p, r);
      }
    } else {
      var start: nat, k: nat, j: nat :| IsScanStart(v, bestBet, Need(req), start) &&
        FirstFit(v, start, Need(req), k, j) && Placed(v, req, k, j, q, w);
      PayloadPositive(NewBlock(v, k, j, req));
      InsertHolds(v, k, j, NewBlock(v, k, j, req), p, r);
    }
  }

  lemma PayloadPositive(b: Block)
    ensures b.Payload() > 0
  {
  }

  lemma FreedHolds(v: View, k: nat, j: nat, w: View, p: nat, r: nat)
    requires WellFormed(v) && Freed(v, k, j, w)
    ensures Holds(w, p, r) <==> Holds(v, p, r) && p != v[k].blocks[j].Payload()
  {
    forall m: nat, i: nat | IsSlot(v, m, i) && v[m].blocks[i].Payload() == v[k].blocks[j].Payload()
      ensures m == k && i == j
    {
      PayloadNamesSlot(v, k, j, m, i);
    }
    FreedSlots(v, k, j, w);
    hide Block.Payload, WellFormed, Freed;
  }

  /** Where a block of `w` was in `v`, and back. */
  lemma FreedSlots(v: View, k: nat, j: nat, w: View)
    requires Freed(v, k, j, w)
    ensures forall m: nat, i: nat {:trigger IsSlot(w, m, i)} :: IsSlot(w, m, i) ==>
      exists a: nat, b: nat :: IsSlot(v, a, b) && (a, b) != (k, j) && v[a].blocks[b] == w[m].blocks[i]
    ensures forall a: nat, b: nat {:trigger IsSlot(v, a, b)} :: IsSlot(v, a, b) && (a, b) != (k, j) ==>
      exists m: nat, i: nat :: IsSlot(w, m, i) && w[m].blocks[i] == v[a].blocks[b]
  {
    if |v[k].blocks| == 1 {
      forall m: nat, i: nat | IsSlot(w, m, i)
        ensures exists a: nat, b: nat :: IsSlot(v, a, b) && (a, b) != (k, j) && v[a].blocks[b] == w[m].blocks[i]
      {
        assert IsSlot(v, if m < k then m else m + 1, i);
      }
      forall a: nat, b: nat | IsSlot(v, a, b) && (a, b) != (k, j)
        ensures exists m: nat, i: nat :: IsSlot(w, m, i) && w[m].blocks[i] == v[a].blocks[b]
      {
        assert IsSlot(w, if a < k then a else a - 1, b);
      }
    } else {
      forall m: nat, i: nat | IsSlot(w, m, i)
        ensures exists a: nat, b: nat :: IsSlot(v, a, b) && (a, b) != (k, j) && v[a].blocks[b] == w[m].blocks[i]
      {
        assert IsSlot(v, m, if m == k && i >= j then i + 1 else i);
      }
      forall a: nat, b: nat | IsSlot(v, a, b) && (a, b) != (k, j)
        ensures exists m: nat, i: nat :: IsSlot(w, m, i) && w[m].blocks[i] == v[a].blocks[b]
      {
        assert IsSlot(w, a, if a == k && b > j then b - 1 else b);
      }
    }
  }

  /** `free` takes away its pointer and nothing else. */
  lemma FreeHolds(v: View, q: nat, w: View, p: nat, r: nat)
    requires WellFormed(v) && FreeStep(v, q, w)
    ensures Holds(w, p, r) <==> Holds(v, p, r) && p != q
  {
    hide WellFormed, Freed, Holds, Block.Payload;
    var k: nat, j: nat :| IsSlot(v, k, j) && v[k].blocks[j].Payload() == q && Freed(v, k, j, w);
    FreedHolds(v, k, j, w, p, r);
  }

  /** In-place `realloc` keeps the pointer and records the new request. */
  lemma ResizeHolds(v: View, q: nat, req: nat, w: View, p: nat, r: nat)
    requires WellFormed(v) && ResizeStep(v, q, req, w)
    ensures Holds(w, p, r) <==> (Holds(v, p, r) && p != q) || (p == q && r == req)
  {
    var k: nat, j: nat :| IsSlot(v, k, j) && v[k].blocks[j].Payload() == q && req <= v[k].blocks[j].req &&
      w == v[k := v[k].Resize(j, req)];
    forall m: nat, i: nat | IsSlot(v, m, i) && v[m].blocks[i].Payload() == q
      ensures m == k && i == j
    {
      PayloadNamesSlot(v, k, j, m, i);
    }
    forall m: nat, i: nat
      ensures IsSlot(w, m, i) <==> IsSlot(v, m, i)
      ensures IsSlot(v, m, i) ==> w[m].blocks[i].Payload() == v[m].blocks[i].Payload()
      ensures IsSlot(v, m, i) ==> w[m].blocks[i].req == if (m, i) == (k, j) then req else v[m].blocks[i].req
    {
    }
    hide Block.Payload, WellFormed, Region.Resize;
    assert IsSlot(w, k, j);
  }

  lemma ReallocHolds(v: View, bestBet: nat, q: nat, req: nat, grant: nat, q': nat, w: View, p: nat, r: nat)
    requires Sound(v) && ReallocStep(v, bestBet, q, req, grant, q', w)
    requires grant == 0 || GrantOk(v, grant, PagesFor(SizeFor(req)))
    ensures Holds(w, p, r) <==> (Holds(v, p, r) && p != q) || (p == q' && r == req)
  {
    hide MallocStep, FreeStep, ResizeStep, WellFormed, NoneEmpty, Outgrown, Holds;
    if Outgrown(v, q, req) {
      var mid: View :| MallocStep(v, bestBet, req, grant, q', mid) && FreeStep(mid, q, w);
      MallocKeepsSound(v, bestBet, req, grant, q', mid);
      MallocHolds(v, bestBet, req, grant, q', mid, p, r);
      FreeHolds(mid, q, w, p, r);
    } else {
      ResizeHolds(v, q, req, w, p, r);
    }
  }

  /** `realloc` leaves a block where it is exactly when it was asked for with at least as many bytes. */
  lemma ReallocMovesIff(v: View, bestBet: nat, p: nat, req: nat, grant: nat, q: nat, w: View, r: nat)
    requires WellFormed(v) && ReallocStep(v, bestBet, p, req, grant, q, w) && Holds(v, p, r)
    ensures q == p <==> r >= req
  {
    var k: nat, j: nat :| IsSlot(v, k, j) && v[k].blocks[j].Payload() == p && v[k].blocks[j].req == r;
    forall m: nat, i: nat | IsSlot(v, m, i) && v[m].blocks[i].Payload() == p
      ensures m == k && i == j
    {
      PayloadNamesSlot(v, k, j, m, i);
    }
    hide Block.Payload, WellFormed, MallocStep, FreeStep, ResizeStep;
  }

  // ----- Every run

  /** After every sequence of calls the heap holds exactly what its clients own. */
  lemma {:induction false} HeapHoldsWhatIsOwned(calls: seq<Call>, views: seq<View>, n: nat, p: nat, r: nat)
    requires IsRun(calls, views) && n <= |calls|
    ensures Holds(views[n], p, r) <==> (p, r) in Owned(calls[..n])
  {
    if n > 0 {
      HeapHoldsWhatIsOwned(calls, views, n - 1, p, r);
      RunsStaySound(calls, views, n - 1);
      var v, w := views[n - 1], views[n];
      assert Step(v, calls[n - 1], w);
      assert calls[..n][..n - 1] == calls[..n - 1];
      hide Holds, MallocStep, FreeStep, ReallocStep, GrantOk;
      match calls[n - 1]
      case Malloc(bestBet, req, grant, q) => MallocHolds(v, bestBet, req, grant, q, w, p, r);
      case Free(q) => FreeHolds(v, q, w, p, r);
      case Realloc(bestBet, q, req, grant, q') => ReallocHolds(v, bestBet, q, req, grant, q', w, p, r);
    }
  }

  // ----- How much

  /** A successful `malloc` puts 32 bytes more than asked for into use, and takes pages only when it asked for them. */
  lemma MallocAddsBytes(v: View, bestBet: nat, req: nat, grant: nat, p: nat, w: View)
    requires MallocStep(v, bestBet, req, grant, p, w)
    ensures InUse(w) == InUse(v) + if p == 0 then 0 else req + 32
    ensures TotalSize(w) == TotalSize(v) + if NoFit(v, Need(req)) && grant != 0 then 4096 * PagesFor(req + 32) else 0
  {
    hide Block.Payload, IsScanStart, FirstFit, InUse, TotalSize, PagesFor;
    if NoFit(v, Need(req)) {
      if grant != 0 {
        PayloadPositive(FreshRegion(req, grant).blocks[0]);
        TotalsAppend(v, FreshRegion(req, grant));
        SumOfOne(FreshRegion(req, grant).blocks[0]);
      }
    } else {
      var start: nat, k: nat, j: nat :| IsScanStart(v, bestBet, Need(req), start) &&
        FirstFit(v, start, Need(req), k, j) && Placed(v, req, k, j, p, w);
      PayloadPositive(NewBlock(v, k, j, req));
      TotalsAfterPlace(v, k, j, NewBlock(v, k, j, req));
    }
  }

  // ----- Where

  /** One of the region's gaps has room for `need` bytes. */
  ghost predicate CanTake(r: Region, need: nat) {
    exists j: nat :: j <= |r.blocks| && r.Fits(j, need)
  }

  /** The hint is worth starting from: its region has more than the needed bytes free in all. */
  ghost predicate Promising(v: View, bestBet: nat, b: nat, need: nat) {
    b < |v| && v[b].addr == bestBet && v[b].FreeBytes() > need
  }

  lemma HintDecides(v: View, bestBet: nat, need: nat, start: nat, k: nat, j: nat, b: nat)
    requires WellFormed(v) && IsScanStart(v, bestBet, need, start) && FirstFit(v, start, need, k, j)
    ensures Promising(v, bestBet, b, need) && CanTake(v[b], need) ==> k == b
    ensures (forall m :: 0 <= m < |v| ==> !Promising(v, bestBet, m, need)) ==> forall m :: 0 <= m < k ==> !CanTake(v[m], need)
  {
    hide Region.Fits, Region.Size, Region.Usage, Region.Ok;
    if Promising(v, bestBet, b, need) && CanTake(v[b], need) {
      if start != b && start < |v| {
        RegionAddrsDiffer(v, start, b);
      }
      assert start == b && !v[b].NoGapFits(need);
    }
    if forall m :: 0 <= m < |v| ==> !Promising(v, bestBet, m, need) {
      assert start < |v| ==> !Promising(v, bestBet, start, need);
      forall m | 0 <= m < k
        ensures !CanTake(v[m], need)
      {
        assert v[m].NoGapFits(need);
      }
    }
  }

  /** When no region can take the request, the provider's answer decides: a new last region that holds the block alone, or nothing. */
  lemma NothingFitsNewRegion(v: View, bestBet: nat, req: nat, need: nat, grant: nat, p: nat, w: View)
    requires MallocStep(v, bestBet, req, grant, p, w) && need == req + 56 && forall i: nat :: i < |v| ==> !CanTake(v[i], need)
    ensures grant == 0 ==> p == 0 && w == v
    ensures grant != 0 ==> w == v + [Region(grant, PagesFor(req + 32), [Block(grant + 24, req + 32, req)])]
    ensures grant != 0 ==> p == Block(grant + 24, req + 32, req).Payload()
  {
    forall i: nat | i < |v|
      ensures v[i].NoGapFits(need)
    {
      assert !CanTake(v[i], need);
    }
    hide PagesFor, Block.Payload, Region.NoGapFits;
  }

  /** `malloc` goes to the hinted region if that is promising and can take the request; with no promising hint it goes to the first
      region that can; and within the region to the lowest gap that fits, whose 24-byte header and `req + 32` bytes it fills. */
  lemma WhereMallocGoes(v: View, bestBet: nat, req: nat, need: nat, grant: nat, p: nat, w: View, b: nat) returns (k: nat, j: nat)
    requires WellFormed(v) && MallocStep(v, bestBet, req, grant, p, w) && need == req + 56
    requires exists i: nat :: i < |v| && CanTake(v[i], need)
    ensures k < |v| && j <= |v[k].blocks| && v[k].Fits(j, need) && forall i: nat :: i < j ==> !v[k].Fits(i, need)
    ensures w == v[k := v[k].(blocks := v[k].blocks[..j] + [Block(v[k].GapStart(j), req + 32, req)] + v[k].blocks[j..])]
    ensures p == Block(v[k].GapStart(j), req + 32, req).Payload()
    ensures Promising(v, bestBet, b, need) && CanTake(v[b], need) ==> k == b
    ensures (forall m :: 0 <= m < |v| ==> !Promising(v, bestBet, m, need)) ==> forall m :: 0 <= m < k ==> !CanTake(v[m], need)
  {
    var i: nat :| i < |v| && CanTake(v[i], need);
    assert !v[i].NoGapFits(need);
    hide WellFormed, IsScanStart, Promising, Region.Fits, Block.Payload;
    var start: nat;
    start, k, j :| IsScanStart(v, bestBet, need, start) && FirstFit(v, start, need, k, j) && Placed(v, req, k, j, p, w);
    HintDecides(v, bestBet, need, start, k, j, b);
  }
}
