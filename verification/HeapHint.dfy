/** The search hint `l_bestBet`: what looking at regions does to it in `malloc`, and what `free` does to it. */
module HeapHint {
  import opened HeapLayout
  import opened HeapRuns
  import opened HeapHeaders
  import opened HeapStore

  function Span(lo: nat, hi: nat): (s: set<nat>)
    ensures forall m: nat :: m in s <==> lo <= m < hi
    decreases hi
  {
    if hi <= lo then {} else Span(lo, hi - 1) + {hi - 1}
  }

  /** The free bytes of the region at address `a`, 0 if there is none. */
  function Worth(v: View, a: nat): int {
    if v == [] then 0
    else if v[|v| - 1].addr == a then v[|v| - 1].FreeBytes()
    else Worth(v[..|v| - 1], a)
  }

  lemma {:induction false} WorthAt(v: View, k: nat)
    requires WellFormed(v) && k < |v|
    ensures Worth(v, v[k].addr) == v[k].FreeBytes()
  {
    hide Region.FreeBytes;
    if k < |v| - 1 {
      RegionAddrsDiffer(v, k, |v| - 1);
      PrefixWellFormed(v);
      WorthAt(v[..|v| - 1], k);
    }
  }

  lemma PrefixWellFormed(v: View)
    requires WellFormed(v) && v != []
    ensures WellFormed(v[..|v| - 1])
  {
  }

  lemma {:induction false} WorthOfNull(v: View)
    requires WellFormed(v)
    ensures Worth(v, 0) == 0
  {
    if v != [] {
      RegionAddrPositive(v, |v| - 1);
      PrefixWellFormed(v);
      WorthOfNull(v[..|v| - 1]);
    }
  }

  lemma WorthAppend(v: View, e: Region, a: nat)
    requires a != e.addr
    ensures Worth(v + [e], a) == Worth(v, a)
  {
    assert (v + [e])[..|v|] == v;
  }

  // ----- malloc

  /** The hint after the regions `seen` were looked at: the old one, or a seen region with more bytes free than the old one has; and
      no seen region has more. */
  ghost predicate BestSeen(v: View, before: nat, bet: nat, seen: set<nat>) {
    (forall m :: m in seen ==> m < |v| && v[m].FreeBytes() <= Worth(v, bet)) &&
    (bet != before ==> Worth(v, bet) > Worth(v, before) && exists m :: m in seen && m < |v| && v[m].addr == bet)
  }

  /** The regions the search looks at when it begins at `start` and ends at `k` of `n`. */
  function Looked(n: nat, start: nat, k: nat): set<nat> {
    if start <= k then Span(start, k + 1) else Span(start, n) + Span(0, k + 1)
  }

  /** A new region is looked at too, unless it was appended because the last one had too few bytes free in all (CASE 1). */
  predicate LooksAtNew(v: View, need: nat, grant: nat) {
    grant != 0 && (v == [] || v[|v| - 1].FreeBytes() >= need)
  }

  /** The hint after `malloc`. */
  ghost predicate HintAfterMalloc(v: View, before: nat, req: nat, grant: nat, bet: nat) {
    if NoFit(v, Need(req)) then
      var all := if grant == 0 then v else v + [EmptyRegion(req, grant)];
      BestSeen(all, before, bet, Span(0, if LooksAtNew(v, Need(req), grant) then |v| + 1 else |v|))
    else
      exists start: nat, k: nat, j: nat ::
        IsScanStart(v, before, Need(req), start) && FirstFit(v, start, Need(req), k, j) && BestSeen(v, before, bet, Looked(|v|, start, k))
  }

  /** The search has looked at `seen`; `size` is what it takes the hint to be worth. */
  ghost predicate Track(v: View, before: nat, bet: nat, size: int, seen: set<nat>) {
    BestSeen(v, before, bet, seen) && size == Worth(v, bet)
  }

  lemma TrackStarts(v: View, bet: nat, size: int)
    requires WellFormed(v) && ((bet == 0 && size == 0) || exists k: nat :: k < |v| && v[k].addr == bet && v[k].FreeBytes() == size)
    ensures Track(v, bet, bet, size, {})
  {
    if bet == 0 && size == 0 {
      WorthOfNull(v);
    } else {
      var k: nat :| k < |v| && v[k].addr == bet && v[k].FreeBytes() == size;
      WorthAt(v, k);
    }
  }

  /** One look: the hint moves to the region exactly if that has more bytes free. */
  lemma TrackLooks(v: View, before: nat, bet: nat, size: int, seen: set<nat>, i: nat)
    requires WellFormed(v) && Track(v, before, bet, size, seen) && i < |v|
    ensures if size < v[i].FreeBytes() then Track(v, before, v[i].addr, v[i].FreeBytes(), seen + {i}) else Track(v, before, bet, size, seen + {i})
  {
    WorthAt(v, i);
    hide WellFormed, Worth, Region.FreeBytes;
    assert i in seen + {i};
  }

  lemma TrackAppend(v: View, e: Region, before: nat, bet: nat, size: int, seen: set<nat>)
    requires Track(v, before, bet, size, seen) && bet != e.addr && before != e.addr
    ensures Track(v + [e], before, bet, size, seen)
  {
    WorthAppend(v, e, bet);
    WorthAppend(v, e, before);
    hide Worth, Region.FreeBytes;
  }

  /** What has been looked at when the search stands in front of region `i`; `again` once it has started over from the root. */
  ghost predicate LookedTo(v: View, need: nat, startedBet: bool, again: bool, start: nat, i: nat, seen: set<nat>) {
    if startedBet then !again && start <= i && seen == Span(start, i)
    else if again then NoFitFrom(v, need, start, |v|) && seen == Span(start, |v|) + Span(0, i)
    else start == 0 && seen == Span(0, i)
  }

  lemma LookedOn(v: View, need: nat, startedBet: bool, again: bool, start: nat, i: nat, seen: set<nat>)
    requires LookedTo(v, need, startedBet, again, start, i, seen) && i < |v| && v[i].NoGapFits(need)
    requires Passed(v, need, startedBet, start, i)
    ensures LookedTo(v, need, startedBet, again, start, i + 1, seen + {i})
    ensures i + 1 == |v| && startedBet ==> LookedTo(v, need, false, true, start, 0, seen + {i})
    ensures i + 1 == |v| && !startedBet ==> seen + {i} == Span(0, |v|)
  {
    hide Region.NoGapFits;
  }

  /** The search ends at region `i` because one of its gaps fits. */
  lemma LookedEnough(v: View, need: nat, startedBet: bool, again: bool, start: nat, i: nat, seen: set<nat>)
    requires LookedTo(v, need, startedBet, again, start, i, seen) && i < |v| && !v[i].NoGapFits(need)
    ensures seen + {i} == Looked(|v|, start, i)
  {
    hide Region.NoGapFits;
  }

  lemma PlacedHint(v: View, before: nat, req: nat, grant: nat, start: nat, k: nat, j: nat, p: nat, w: View, bet: nat, size: int,
                   startedBet: bool, again: bool, seen: set<nat>)
    requires IsScanStart(v, before, Need(req), start) && Placed(v, req, k, j, p, w)
    requires forall i: nat :: i < j ==> !v[k].Fits(i, Need(req))
    requires Passed(v, Need(req), startedBet, start, k)
    requires LookedTo(v, Need(req), startedBet, again, start, k, seen) && Track(v, before, bet, size, seen + {k})
    ensures HintAfterMalloc(v, before, req, grant, bet)
  {
    assert !v[k].NoGapFits(Need(req));
    LookedEnough(v, Need(req), startedBet, again, start, k, seen);
    assert start <= k ==> NoFitFrom(v, Need(req), start, k);
    assert FirstFit(v, start, Need(req), k, j);
    hide BestSeen, IsScanStart;
  }

  lemma AskedHint(v: View, before: nat, req: nat, grant: nat, bet: nat, size: int, seen: set<nat>)
    requires NoFit(v, Need(req))
    requires Track(if grant == 0 then v else v + [EmptyRegion(req, grant)], before, bet, size, seen)
    requires seen == Span(0, if LooksAtNew(v, Need(req), grant) then |v| + 1 else |v|)
    ensures HintAfterMalloc(v, before, req, grant, bet)
  {
    hide BestSeen, NoFit;
  }

  lemma RootIsLookedAt(need: nat, grant: nat)
    ensures Span(0, 0) == {} && (LooksAtNew([], need, grant) <==> grant != 0)
  {
  }

  lemma NewIsLookedAt(n: nat)
    ensures Span(0, n) + {n} == Span(0, n + 1)
  {
  }

  lemma NoRootNoHint(req: nat)
    requires NoFit([], Need(req))
    ensures HintAfterMalloc([], 0, req, 0, 0)
  {
  }

  lemma LookedAtNone(v: View, need: nat, start: nat)
    ensures LookedTo(v, need, true, false, start, start, {})
    ensures start == 0 ==> LookedTo(v, need, false, false, 0, 0, {})
  {
  }

  lemma BytesOfHint(v: View, k: nat, size: int)
    requires k < |v| && size == v[k].Size() - v[k].Usage()
    ensures exists m: nat :: m < |v| && v[m].addr == v[k].addr && v[m].FreeBytes() == size
  {
  }

  lemma EnoughBytes(v: View, i: nat, need: nat)
    requires WellFormed(v) && i < |v|
    ensures v[i].FreeBytes() < need ==> v[i].NoGapFits(need)
  {
    FreeBytesBoundGaps(v[i], need);
  }

  lemma NotTheGrant(v: View, a: nat, grant: nat, pages: nat)
    requires WellFormed(v) && (a == 0 || IsRegionAddr(v, a)) && pages > 0 && GrantOk(v, grant, pages)
    ensures a != grant
  {
    if a != 0 {
      var k := FindRegion(v, a);
      GrantIsNew(v, grant, pages, k);
    }
  }

  /** A block placed at the end of the search: the step `malloc` makes, and the hint it leaves. */
  lemma FoundIsMalloc(v: View, bet0: nat, req: nat, grant: nat, start: nat, i: nat, j: nat, p: nat, v1: View, w: View,
                      bet: nat, size: int, startedBet: bool, again: bool, asked: bool, seen0: set<nat>, seen: set<nat>)
    requires Placed(v1, req, i, j, p, w) && NoneEmpty(v) && Track(v1, bet0, bet, size, seen)
    requires !asked ==> v1 == v && seen == seen0 + {i} && (forall a: nat :: a < j ==> !v[i].Fits(a, Need(req)))
    requires !asked ==> IsScanStart(v, bet0, Need(req), start) && Passed(v, Need(req), startedBet, start, i)
    requires !asked ==> LookedTo(v, Need(req), startedBet, again, start, i, seen0)
    requires asked ==> grant > 0 && NoFit(v, Need(req)) && v1 == v + [EmptyRegion(req, grant)] && i == |v| && j == 0
    requires asked ==> seen == Span(0, if LooksAtNew(v, Need(req), grant) then |v| + 1 else |v|)
    ensures NoneEmpty(w) && p > ALIGN_INFO
    ensures MallocStep(v, bet0, req, grant, p, w) && HintAfterMalloc(v, bet0, req, grant, bet)
    ensures asked <==> NoFit(v, Need(req))
  {
    hide Placed, Track, LookedTo, IsScanStart, Passed, NoFit, MallocStep, HintAfterMalloc, LooksAtNew, Span, EmptyRegion;
    NewIsLast(v, req, grant);
    PlacedLeavesNoneEmpty(v1, req, i, j, p, w);
    if asked {
      FreshIsMallocStep(v, bet0, req, grant, p, w);
      AskedHint(v, bet0, req, grant, bet, size, seen);
    } else {
      PlacedIsFirstFit(v, bet0, startedBet, start, req, grant, i, j, p, w);
      PlacedHint(v, bet0, req, grant, start, i, j, p, w, bet, size, startedBet, again, seen0);
    }
  }

  lemma NewIsLast(v: View, req: nat, grant: nat)
    ensures forall m :: 0 <= m < |v| ==> (v + [EmptyRegion(req, grant)])[m] == v[m]
  {
  }

  // ----- free

  /** The hint after block `(k, j)` was freed: cleared if it was the region that went; moved to the block's region if that now has
      more bytes free, counted in 32-bit signed numbers; else kept. */
  ghost predicate HintAfterFree(v: View, k: nat, j: nat, before: nat, bet: nat)
    requires IsSlot(v, k, j)
  {
    if |v[k].blocks| == 1 then bet == if before == v[k].addr then 0 else before
    else
      var w := v[k := v[k].Remove(j)];
      bet == if before != 0 && AsInt(w[k].FreeBytes()) > AsInt(Worth(w, before)) then v[k].addr else before
  }

  /** Below 2 GB the signed comparison is the plain one, so the hint then has at least as many bytes free as the block's region. */
  lemma FreeKeepsBestHint(v: View, k: nat, j: nat, before: nat, bet: nat)
    requires WellFormed(v) && IsSlot(v, k, j) && |v[k].blocks| > 1 && HintAfterFree(v, k, j, before, bet) && before != 0
    requires exists m: nat :: m < |v| && v[m].addr == before && v[m].Size() < 0x8000_0000
    requires v[k].Size() < 0x8000_0000
    ensures var w := v[k := v[k].Remove(j)]; Worth(w, bet) >= w[k].FreeBytes() && Worth(w, bet) >= Worth(w, before)
  {
    var w := v[k := v[k].Remove(j)];
    var m: nat :| m < |v| && v[m].addr == before && v[m].Size() < 0x8000_0000;
    RemoveKeepsWellFormed(v, k, j);
    WorthAt(w, k);
    WorthAt(w, m);
    FreeBytesBoundGaps(w[k], 0);
    FreeBytesBoundGaps(w[m], 0);
    SmallAsInt(w[k].FreeBytes());
    SmallAsInt(w[m].FreeBytes());
  }

  /** An unsigned 32-bit value read as a signed one. */
  lemma SmallAsInt(n: int)
    requires 0 <= n < 0x1_0000_0000
    ensures AsInt(n) == if n < 0x8000_0000 then n else n - 0x1_0000_0000
  {
  }
}
