/** The kernel's flat table under contiguous allocation and release, one page at a time, as values. */
module KernelPages {
  import opened PageTables
  import opened FrameOwnership
  import opened AccessRights
  import opened AddressSpaces

  /** The kernel's table after start-up: the low megabyte except page 0 mapped to itself, uncached, and the kernel image
      mapped at the kernel half. */
  function BootEntry(p: nat, kernelFrames: nat): Entry
    requires kernelFrames < PAGES
  {
    if 1 <= p < 256 then Mapping(p, true, false, false)
    else if KERNEL_PAGE < p <= KERNEL_PAGE + kernelFrames then Mapping(p - KERNEL_PAGE, true, true, false)
    else ZERO
  }

  /** `n` unmapped kernel-table pages starting at `at`. */
  ghost predicate FreePages(table: seq<Entry>, at: nat, n: nat) {
    at + n <= |table| && forall p :: at <= p < at + n ==> !table[p].present
  }

  /** The first page searched: page 0 is never used. */
  function SearchFrom(kernel: bool): nat {
    (if kernel then KERNEL_PAGE else 0) + 1
  }

  ghost predicate RunExists(table: seq<Entry>, n: nat, kernel: bool) {
    exists at: nat :: SearchFrom(kernel) <= at && FreePages(table, at, n)
  }

  /** Some page of the kernel half is unmapped, so a temporary mapping can be made. */
  ghost predicate KernelRoom(table: seq<Entry>) {
    exists p :: KERNEL_PAGE < p < |table| && !table[p].present
  }

  /** Unmapped entries of the kernel's table are zero. */
  ghost predicate NoStale(table: seq<Entry>) {
    forall p :: 0 <= p < |table| && !table[p].present ==> table[p] == ZERO
  }

  /** With no frame handed out and only static frames mapped, frames are conserved. */
  lemma StaticMachine(m: Machine)
    requires m.Shape() && m.taken == {} && m.spaces == {}
    requires forall p :: 0 <= p < PAGES && m.table[p].present ==> m.table[p].frame < m.dead
    ensures Conserved(m)
  {
    forall o, f: nat | Holds(m, o, f)
      ensures f < m.dead
    {
    }
  }

  lemma OneFreePage(table: seq<Entry>)
    requires KernelRoom(table)
    ensures RunExists(table, 1, true)
  {
    var p :| KERNEL_PAGE < p < |table| && !table[p].present;
    assert FreePages(table, p, 1);
  }

  /** One more page of a run: to a fresh frame, or to frame 0 when none is free. */
  function MapNext(k: Machine, p: nat, frame: Frame): Machine
    requires k.Shape() && p < PAGES
  {
    k.(table := k.table[p := KernelMapping(frame)], taken := if frame == 0 then k.taken else k.taken + {frame})
  }

  ghost predicate NextFrame(k: Machine, frame: Frame) {
    if frame == 0 then OutOfFrames(k) else FreeFrame(k, frame)
  }

  lemma MapNextConserves(k: Machine, p: nat, frame: Frame)
    requires Conserved(k) && p < PAGES && !k.table[p].present && NextFrame(k, frame)
    ensures Conserved(MapNext(k, p, frame))
  {
    if frame == 0 {
      MapStaticConserves(k, p, KernelMapping(0));
      assert MapNext(k, p, frame) == k.(table := k.table[p := KernelMapping(0)]);
    } else {
      MapFreshConserves(k, p, KernelMapping(frame));
    }
  }

  lemma MapNextGuards(k: Machine, p: nat, frame: Frame)
    requires Guarded(k) && p < PAGES && !k.table[p].present && NextFrame(k, frame)
    ensures Guarded(MapNext(k, p, frame)) && KernelMemory(MapNext(k, p, frame).table[p])
  {
    MapNextShape(k, p, frame);
    KernelTableGuards(k, MapNext(k, p, frame));
  }

  lemma MapNextShape(k: Machine, p: nat, frame: Frame)
    requires k.Shape() && p < PAGES && !k.table[p].present && NextFrame(k, frame)
    ensures MapNext(k, p, frame).Shape()
  {
  }

  /** A frame taken since the run began is mapped in it. */
  lemma TakenByRun(m: Machine, k: Machine, n: Machine, base: nat, i: nat, frame: Frame, f: nat)
    requires RunMapped(m, k, base, i) && base + i < PAGES && n == MapNext(k, base + i, frame) && f in n.taken
    ensures f in m.taken || exists p :: base <= p < base + i + 1 && n.table[p].frame == f
  {
    if f in k.taken && f !in m.taken {
      var p :| base <= p < base + i && k.table[p].frame == f;
      assert n.table[p].frame == f;
    } else if f !in k.taken {
      assert n.table[base + i].frame == f;
    }
  }

  lemma RunMappedNext(m: Machine, k: Machine, base: nat, i: nat, frame: Frame)
    requires RunMapped(m, k, base, i) && base + i < PAGES && !k.table[base + i].present && NextFrame(k, frame)
    ensures RunMapped(m, MapNext(k, base + i, frame), base, i + 1)
  {
    var n := MapNext(k, base + i, frame);
    MapNextShape(k, base + i, frame);
    assert |m.table| == |k.table| == |n.table| == PAGES;
    forall f | f in n.taken
      ensures f in m.taken || exists p :: base <= p < base + i + 1 && n.table[p].frame == f
    {
      TakenByRun(m, k, n, base, i, frame, f);
    }
    hide Machine.Shape;
    forall p | base <= p < base + i + 1 && n.table[p].frame == 0
      ensures OutOfFrames(n)
    {
      assert p < base + i ==> n.table[p] == k.table[p];
    }
  }

  /** A marked frame that no place holds. */
  ghost predicate Lost(m: Machine, f: nat)
    requires m.Shape()
  {
    f in m.taken && forall o :: !Holds(m, o, f)
  }

  lemma FreshIsNowhere(m: Machine, f: nat)
    requires Conserved(m) && FreeFrame(m, f)
    ensures forall o :: !Holds(m, o, f)
  {
  }

  /** One round of the mapping loop: page 0 is never mapped, but its frame is taken all the same. */
  function TakeAndMap(k: Machine, page: nat, frame: Frame): Machine
    requires k.Shape() && page < PAGES
  {
    if page == 0 then MapNext(k, page, frame).(table := k.table) else MapNext(k, page, frame)
  }

  /** The mapping loop after `i` of `n` rounds, started in `m` at a free run. */
  ghost predicate Progress(m: Machine, k: Machine, base: nat, n: nat, i: nat) {
    i <= n && 0 < base && FreePages(m.table, base, n) && Conserved(k) && NoStale(k.table) && RunMapped(m, k, base, i) &&
    FreePages(k.table, base + i, n - i)
  }

  lemma ProgressNext(m: Machine, k: Machine, base: nat, n: nat, i: nat, frame: Frame)
    requires Progress(m, k, base, n, i) && i < n && NextFrame(k, frame)
    ensures base + i < PAGES && Progress(m, TakeAndMap(k, base + i, frame), base, n, i + 1)
  {
    hide Conserved, RunMapped, Machine.Structure, Machine.Shape, NextFrame;
    ProgressFacts(m, k, base, n, i);
    ShapeLength(k);
    RunMappedNext(m, k, base, i, frame);
    MapNextConserves(k, base + i, frame);
  }

  lemma ShapeLength(k: Machine)
    requires k.Shape()
    ensures |k.table| == PAGES
  {
  }

  lemma ProgressFacts(m: Machine, k: Machine, base: nat, n: nat, i: nat)
    requires Progress(m, k, base, n, i)
    ensures k.Shape() && k.Structure() && base + n <= PAGES && Conserved(k) && NoStale(k.table) && RunMapped(m, k, base, i)
  {
  }

  // ----- When no run of pages was found

  /** Pages 1 to `n - 1` of the kernel's table hold no directory. */
  ghost predicate NoDirectoryBelow(m: Machine, n: nat) {
    forall s :: s in m.spaces ==> n <= s
  }

  /** Pages 1 to `n - 1` of the kernel's table map no frame under the bitmap. */
  ghost predicate NoFrameBelow(m: Machine, n: nat)
    requires m.Shape()
  {
    forall p :: 0 < p < n && p < PAGES && m.table[p].present ==> m.table[p].frame < m.dead
  }

  /** The loop after `i` rounds started at page 0: pages below `i` are overwritten, and the frame taken for page 0 is lost. */
  ghost predicate Overwriting(m: Machine, k: Machine, i: nat, lost: nat) {
    m.Shape() && k.Structure() && k.dead == m.dead && k.len == m.len && k.spaces == m.spaces &&
    (forall o: Owner :: !(o.KernelPage? && 0 < o.page < i) ==> Slot(k, o) == Slot(m, o)) &&
    if OutOfFrames(m) then k.taken == m.taken && forall p :: 0 < p < i && p < PAGES ==> k.table[p] == KernelMapping(0)
    else i > 0 ==> m.dead <= lost && Lost(k, lost)
  }

  lemma OverwritingStarts(m: Machine)
    requires m.Structure()
    ensures Overwriting(m, m, 0, 0)
  {
  }

  lemma TakeAndMapChanges(k: Machine, page: nat, frame: Frame)
    requires k.Structure() && page < PAGES && page !in k.spaces && NextFrame(k, frame)
    ensures var n := TakeAndMap(k, page, frame);
      n.Structure() && OnlyChanged(k, n, KernelPage(page)) &&
      Slot(n, KernelPage(page)) == if page == 0 then k.table[0] else KernelMapping(frame)
  {
    var taken := if frame == 0 then k.taken else k.taken + {frame};
    if page == 0 {
      KernelStoreIsOneChange(k, 0, k.table[0], taken);
      assert k.table[0 := k.table[0]] == k.table;
    } else {
      KernelStoreIsOneChange(k, page, KernelMapping(frame), taken);
    }
  }

  /** A lost frame stays lost: no later round takes it. */
  lemma LostStaysLost(k: Machine, page: nat, frame: Frame, lost: nat)
    requires k.Structure() && page < PAGES && page !in k.spaces && NextFrame(k, frame) && Lost(k, lost)
    ensures var n := TakeAndMap(k, page, frame); n.Shape() && Lost(n, lost)
  {
    TakeAndMapChanges(k, page, frame);
    var n := TakeAndMap(k, page, frame);
    assert k.Shape() && n.Shape();
    assert !Holds(k, KernelPage(0), lost) && lost >= k.dead > 0;
    forall o
      ensures !Holds(n, o, lost)
    {
      assert !Holds(k, o, lost);
    }
  }

  lemma FirstIsLost(m: Machine, frame: Frame)
    requires Conserved(m) && 0 !in m.spaces && NextFrame(m, frame) && !OutOfFrames(m)
    ensures var n := TakeAndMap(m, 0, frame); n.Shape() && m.dead <= frame && Lost(n, frame)
  {
    TakeAndMapChanges(m, 0, frame);
    FreshIsNowhere(m, frame);
    var n := TakeAndMap(m, 0, frame);
    forall o
      ensures !Holds(n, o, frame)
    {
      assert !Holds(m, o, frame);
    }
  }

  lemma OverwritingNext(m: Machine, k: Machine, i: nat, lost: nat, frame: Frame)
    requires Conserved(m) && Overwriting(m, k, i, lost) && NoDirectoryBelow(m, i + 1) && NextFrame(k, frame) && (i == 0 ==> k == m)
    ensures Overwriting(m, TakeAndMap(k, i % PAGES, frame), i + 1, if i == 0 then frame else lost)
  {
    var page := i % PAGES;
    TakeAndMapChanges(k, page, frame);
    if !OutOfFrames(m) {
      if i == 0 {
        FirstIsLost(m, frame);
      } else {
        LostStaysLost(k, page, frame, lost);
      }
    }
    var n := TakeAndMap(k, page, frame);
    hide Conserved, Machine.Structure, Machine.Shape, Slot, Lost;
    assert OutOfFrames(m) ==> frame == 0;
    forall o: Owner | !(o.KernelPage? && 0 < o.page < i + 1)
      ensures Slot(n, o) == Slot(m, o)
    {
      if o == KernelPage(page) {
        ZeroPageSlot(k, n);
      }
    }
  }

  lemma ZeroPageSlot(k: Machine, n: Machine)
    requires k.Shape() && n.Shape()
    ensures Slot(n, KernelPage(0)) == n.table[0] && Slot(k, KernelPage(0)) == k.table[0]
  {
  }

  lemma OverwritingFacts(m: Machine, k: Machine, i: nat, lost: nat)
    requires Overwriting(m, k, i, lost)
    ensures k.Shape() && k.Structure() && k.spaces == m.spaces
  {
  }

  /** Frames are conserved by the overwriting loop exactly when there was no frame to take and none was mapped where it wrote. */
  lemma OverwritingEnds(m: Machine, k: Machine, n: nat, lost: nat)
    requires Conserved(m) && Overwriting(m, k, n, lost) && n > 0
    ensures Conserved(k) <==> OutOfFrames(m) && NoFrameBelow(m, n)
  {
    assert k.Shape();
    hide Machine.Structure;
    if OutOfFrames(m) {
      if NoFrameBelow(m, n) {
        NothingOverwritten(m, k, n, lost);
      } else {
        var p :| 0 < p < n && p < PAGES && m.table[p].present && m.table[p].frame >= m.dead;
        OverwrittenIsLost(m, k, n, lost, p);
      }
    }
  }

  /** An input that breaks conservation: after start-up, with at least one frame free, a request for all pages. No run of that
      length exists, no process directory is in the way, and the loop loses the first frame it takes. */
  lemma BootRequestLosesFrame(m: Machine, k: Machine, kernelFrames: nat, kernel: bool, lost: nat)
    requires m.Shape() && m.taken == {} && m.spaces == {} && m.dead < m.len
    requires 255 <= kernelFrames < PAGES - KERNEL_PAGE && m.dead == kernelFrames + 1
    requires forall p :: 0 <= p < PAGES ==> m.table[p] == BootEntry(p, kernelFrames)
    requires Overwriting(m, k, PAGES, lost)
    ensures Conserved(m) && !RunExists(m.table, PAGES, kernel) && NoDirectoryBelow(m, PAGES) && !Conserved(k)
  {
    StaticMachine(m);
    assert FreeFrame(m, m.dead);
    OverwritingEnds(m, k, PAGES, lost);
  }

  lemma NothingOverwritten(m: Machine, k: Machine, n: nat, lost: nat)
    requires Conserved(m) && Overwriting(m, k, n, lost) && OutOfFrames(m) && NoFrameBelow(m, n)
    ensures Conserved(k)
  {
    forall o, f | m.dead <= f
      ensures Holds(k, o, f) <==> Holds(m, o, f)
    {
    }
    hide Machine.Structure, Slot, Holds;
    assert m.Structure() && k.Structure();
    forall f | f in k.taken
      ensures exists o :: Holds(k, o, f)
    {
      assert m.dead <= f;
      var o :| Holds(m, o, f);
      assert Holds(k, o, f);
    }
  }

  lemma OverwrittenIsLost(m: Machine, k: Machine, n: nat, lost: nat, p: nat)
    requires Conserved(m) && Overwriting(m, k, n, lost) && OutOfFrames(m)
    requires 0 < p < n && p < PAGES && m.table[p].present && m.table[p].frame >= m.dead
    ensures k.Shape() && !Conserved(k)
  {
    var f := m.table[p].frame;
    assert Holds(m, KernelPage(p), f);
    forall o
      ensures !Holds(k, o, f)
    {
      if Holds(m, o, f) {
        assert o == KernelPage(p);
      }
    }
  }

  /** One round of the freeing loop: a mapped page gives its frame up. */
  function FreedPage(k: Machine, p: nat): Machine
    requires k.Shape() && p < PAGES
  {
    if k.table[p].present then k.(table := k.table[p := ZERO], taken := k.taken - {k.table[p].frame}) else k
  }

  lemma FreedPageConserves(k: Machine, p: nat)
    requires Conserved(k) && p < PAGES && p !in k.spaces
    ensures Conserved(FreedPage(k, p))
    ensures NoStale(k.table) ==> NoStale(FreedPage(k, p).table) && FreedPage(k, p).table[p] == ZERO
    ensures k.table[p].present && k.table[p].frame == 0 ==> FreedPage(k, p).taken == k.taken
  {
    if k.table[p].present {
      UnmapConserves(k, p);
    }
  }

  lemma FreedPageGuards(k: Machine, p: nat)
    requires Guarded(k) && p < PAGES && p !in k.spaces && FreedPage(k, p).Shape()
    ensures Guarded(FreedPage(k, p))
  {
    KernelTableGuards(k, FreedPage(k, p));
  }

  lemma UnmappedNone(m: Machine, base: nat)
    requires m.Shape() && base <= PAGES
    ensures RunUnmapped(m, m, base, 0)
  {
  }

  /** A page that may be freed: it holds no directory and no static frame except frame 0. */
  ghost predicate Freeable(m: Machine, p: nat) {
    p < |m.table| && p !in m.spaces && (m.table[p].present ==> m.table[p].frame == 0 || m.table[p].frame >= m.dead)
  }

  /** The pages of a run that map frame `f`. */
  ghost predicate MappedIn(m: Machine, base: nat, i: nat, f: nat) {
    base + i <= |m.table| && exists p :: base <= p < base + i && m.table[p].present && m.table[p].frame == f
  }

  lemma MappedInNext(m: Machine, base: nat, i: nat, f: nat)
    requires base + i < |m.table|
    ensures MappedIn(m, base, i + 1, f) <==> MappedIn(m, base, i, f) || (m.table[base + i].present && m.table[base + i].frame == f)
  {
  }

  lemma FreeNext(m: Machine, k: Machine, base: nat, n: nat, i: nat)
    requires Conserved(k) && NoStale(k.table) && RunUnmapped(m, k, base, i) && i < n && base + n <= PAGES
    requires forall p :: base <= p < base + n ==> Freeable(m, p)
    ensures Freeable(k, base + i) && RunUnmapped(m, FreedPage(k, base + i), base, i + 1)
  {
    assert Freeable(m, base + i) && k.table[base + i] == m.table[base + i];
    FreedPageConserves(k, base + i);
    var after := FreedPage(k, base + i);
    assert after.Shape() && m.Shape();
    hide Conserved, Machine.Shape, NoStale;
    forall f
      ensures f in after.taken <==> f in m.taken && !MappedIn(m, base, i + 1, f)
    {
      MappedInNext(m, base, i, f);
    }
  }

  lemma BuildingFacts(m: Machine, k: Machine, v: nat, base: nat, i: nat, n: nat)
    requires Building(m, k, v, base, i)
    ensures m.Shape() && k.Shape() && k.Structure() && v < PAGES && v in k.spaces && k.table == m.table[v := k.table[v]]
    ensures i < n && USER_PAGE + n <= KERNEL_PAGE && |FreeFrames(k)| + TablesFor(i) >= TablesFor(n) ==>
      k.Pde(v, (USER_PAGE + i) / ENTRIES).present || exists g :: FreeFrame(k, g)
  {
    assert m.Shape() && k.Shape();
    if i < n && USER_PAGE + n <= KERNEL_PAGE && |FreeFrames(k)| + TablesFor(i) >= TablesFor(n) {
      hide Machine.Structure, Machine.Lookup, Machine.Pde;
      var j := (USER_PAGE + i) / ENTRIES;
      assert TablesFor(n) >= j + 1;
      if !k.Pde(v, j).present {
        assert TablesFor(i) <= j;
        assert FreeFrames(k) != {};
        var g :| g in FreeFrames(k);
        assert FreeFrame(k, g);
      }
    }
  }

  lemma EntrySetTable(k: Machine, n: Machine, s: nat, p: nat, e: Entry)
    requires EntrySet(k, n, s, p, e)
    ensures n.table == k.table
  {
  }

  /** Room in the kernel half for a directory and for a temporary window beside it. */
  ghost predicate TwoKernelPages(table: seq<Entry>) {
    exists p, q :: KERNEL_PAGE < p < q < |table| && !table[p].present && !table[q].present
  }

  lemma RoomForTwo(table: seq<Entry>)
    requires TwoKernelPages(table)
    ensures KernelRoom(table)
  {
  }

  lemma RoomLeft(before: seq<Entry>, after: seq<Entry>, v: nat)
    requires TwoKernelPages(before) && v < |before| && |after| == |before| && after == before[v := after[v]]
    ensures KernelRoom(after)
  {
    var p, q :| KERNEL_PAGE < p < q < |before| && !before[p].present && !before[q].present;
    assert after[if p == v then q else p] == before[if p == v then q else p];
  }

  lemma BuildingSpaces(m: Machine, k: Machine, v: nat, base: nat, i: nat)
    requires Building(m, k, v, base, i)
    ensures k.spaces == m.spaces + {v} && base + i <= PAGES
  {
  }

  lemma UnmappingStarts(k: Machine, base: nat)
    requires k.Structure() && base <= PAGES
    ensures Unmapping(k, k, base, 0)
  {
  }

  lemma UnmappingFacts(k: Machine, n: Machine, base: nat, i: nat)
    requires Unmapping(k, n, base, i)
    ensures k.Shape() && n.Structure() && base + i <= PAGES && (NoStale(k.table) ==> NoStale(n.table))
    ensures forall s, j :: s in k.spaces && 0 <= j < ENTRIES ==> n.Pde(s, j) == k.Pde(s, j)
  {
  }

  lemma MappedIsFreeable(m: Machine, k: Machine, base: nat, n: nat)
    requires Conserved(m) && NoStale(m.table) && RunMapped(m, k, base, n) && FreePages(m.table, base, n)
    ensures base + n <= PAGES && forall p :: base <= p < base + n ==> Freeable(k, p) && m.table[p] == ZERO
  {
    forall p | base <= p < base + n
      ensures Freeable(k, p)
    {
      assert m.Shape() && !m.table[p].present && p !in m.spaces;
    }
  }

  /** The stack loop at page `p` of `lo .. hi`, started in `m`: everything in order so far. */
  ghost predicate Growing(m: Machine, k: Machine, s: nat, lo: nat, p: nat, hi: nat) {
    StackMapped(m, k, s, lo, p) && p <= hi <= KERNEL_PAGE && UserPagesFree(m, s, lo, hi) && Conserved(k) && Guarded(k) && NoStale(k.table) &&
    KernelRoom(k.table) && (RoomForTables(k, s, p, hi) <==> RoomForTables(m, s, lo, hi))
  }

  /** The stack loop once a page took the last frame and its table none. */
  ghost predicate Stuck(m: Machine, k: Machine, s: nat, lo: nat, hi: nat) {
    m.Shape() && s < PAGES && k.Shape() && !k.Structure() && OutOfFrames(k) && !RoomForTables(m, s, lo, hi)
  }

  lemma GrowingStarts(m: Machine, s: nat, lo: nat, hi: nat)
    requires Conserved(m) && Guarded(m) && NoStale(m.table) && KernelRoom(m.table)
    requires s in m.spaces && lo <= hi <= KERNEL_PAGE && UserPagesFree(m, s, lo, hi)
    ensures Growing(m, m, s, lo, lo, hi)
  {
    hide AllMarked, HeldOnce, NoneLost, RoomForTables, Guarded;
  }

  lemma GrowingFacts(m: Machine, k: Machine, s: nat, lo: nat, p: nat, hi: nat)
    requires Growing(m, k, s, lo, p, hi)
    ensures k.Shape() && k.Structure() && s in k.spaces && s < PAGES && KernelRoom(k.table) && NoStale(k.table) && Conserved(k) && Guarded(k)
    ensures StackMapped(m, k, s, lo, p) && lo <= p <= hi <= KERNEL_PAGE
    ensures p < hi ==> !k.Lookup(s, p).present
  {
  }

  /** A frame in hand means the loop is not stuck. */
  lemma NotStuck(m: Machine, k: Machine, s: nat, lo: nat, hi: nat, f: nat)
    requires FreeFrame(k, f)
    ensures !Stuck(m, k, s, lo, hi)
  {
  }

  lemma GrowingNext(m: Machine, k: Machine, n: Machine, s: nat, lo: nat, p: nat, hi: nat, f: Frame)
    requires Growing(m, k, s, lo, p, hi) && p < hi && UserMapped(k, n, s, p, Mapping(f, true, true, true))
    ensures Growing(m, n, s, lo, p + 1, hi)
  {
    GrowingFacts(m, k, s, lo, p, hi);
    StackMappedNext(m, k, n, s, lo, p, Mapping(f, true, true, true));
    TableRoomNext(k, n, s, p, hi, Mapping(f, true, true, true));
    UserMappedTable(k, n, s, p, Mapping(f, true, true, true));
    UserMappedConserves(k, n, s, p, Mapping(f, true, true, true));
    UserMappedGuards(k, n, s, p, Mapping(f, true, true, true));
    hide StackMapped, RoomForTables, UserMapped, Conserved, NoStale, KernelRoom, Guarded;
  }

  lemma GrowingSticks(m: Machine, k: Machine, n: Machine, s: nat, lo: nat, p: nat, hi: nat, f: Frame)
    requires Growing(m, k, s, lo, p, hi) && p < hi && FreeFrame(k, f) && k.Shape() && s < PAGES && p < KERNEL_PAGE
    requires !k.Pde(s, p / ENTRIES).present && OutOfFrames(k.(taken := k.taken + {f}))
    requires n.Shape() && !n.Structure() && n.taken == k.taken + {f} && n.dead == k.dead && n.len == k.len
    ensures Stuck(m, n, s, lo, hi)
  {
    LastFrameNoTable(k, s, p, hi, f);
    assert m.Shape();
    hide Machine.Structure, RoomForTables, Conserved, Machine.Pde;
  }

  /** What `SetPte` does for the page, once its frame `f` has been taken. */
  ghost predicate PageSet(k: Machine, n: Machine, s: nat, p: nat, f: Frame) {
    var k1 := k.(taken := k.taken + {f});
    n.Shape() && k1.Shape() && s < PAGES && p < PAGES &&
    if TableAtHand(k1, s, p) then EntrySet(k1, n, s, p, Mapping(f, true, true, true)) else n == k1.(phys := n.phys) && !n.Structure()
  }

  lemma SetPageIsMapped(k: Machine, n: Machine, s: nat, p: nat, f: Frame)
    requires k.Structure() && FreeFrame(k, f) && s in k.spaces && p < KERNEL_PAGE && !k.Lookup(s, p).present
    requires PageSet(k, n, s, p, f) && TableAtHand(k.(taken := k.taken + {f}), s, p)
    ensures UserMapped(k, n, s, p, Mapping(f, true, true, true))
  {
    hide EntrySet, Machine.Structure;
  }

  lemma SetPageWithoutTable(k: Machine, n: Machine, s: nat, p: nat, f: Frame)
    requires k.Shape() && FreeFrame(k, f) && PageSet(k, n, s, p, f) && !TableAtHand(k.(taken := k.taken + {f}), s, p)
    ensures !k.Pde(s, p / ENTRIES).present && OutOfFrames(k.(taken := k.taken + {f})) && !n.Structure()
    ensures n.taken == k.taken + {f} && n.dead == k.dead && n.len == k.len
  {
    hide EntrySet, Machine.Structure;
    var k1 := k.(taken := k.taken + {f});
    forall g | k1.dead <= g < k1.len
      ensures g in k1.taken
    {
      assert !FreeFrame(k1, g);
    }
  }

  /** One round of the stack loop. */
  lemma PageMappedOrStuck(m: Machine, k: Machine, n: Machine, s: nat, lo: nat, p: nat, hi: nat, f: Frame)
    requires Growing(m, k, s, lo, p, hi) && p < hi && FreeFrame(k, f) && PageSet(k, n, s, p, f)
    ensures Stuck(m, n, s, lo, hi) || Growing(m, n, s, lo, p + 1, hi)
  {
    GrowingFacts(m, k, s, lo, p, hi);
    hide Growing, Stuck, EntrySet, Machine.Structure, Conserved, StackMapped, UserMapped, TableAtHand, Machine.Pde, Machine.Lookup;
    if TableAtHand(k.(taken := k.taken + {f}), s, p) {
      SetPageIsMapped(k, n, s, p, f);
      GrowingNext(m, k, n, s, lo, p, hi, f);
    } else {
      SetPageWithoutTable(k, n, s, p, f);
      GrowingSticks(m, k, n, s, lo, p, hi, f);
    }
  }

  /** A page table made for page `p`: in a free frame, or in frame 0 when there is none. */
  lemma TableFor(m: Machine, s: nat, p: nat, f: Frame, e: Entry)
    requires m.Structure() && s in m.spaces && p < KERNEL_PAGE && !m.Pde(s, p / ENTRIES).present && NextFrame(m, f)
    ensures var k := WithTable(m, s, p / ENTRIES, f);
      && k.Shape() && k.Pde(s, p / ENTRIES).present
      && var n := WithEntry(k, s, p, e);
      && n.Shape() && (n.Structure() <==> TableAtHand(m, s, p))
      && (TableAtHand(m, s, p) ==> EntrySet(m, n, s, p, e))
      && (!TableAtHand(m, s, p) ==> n == m.(phys := n.phys))
  {
    if f == 0 {
      TableInFrameZero(m, s, p, e);
    } else {
      SetInNewTable(m, s, p, f, e);
    }
  }

  lemma GrowingEnds(m: Machine, k: Machine, s: nat, lo: nat, p: nat, hi: nat)
    requires Growing(m, k, s, lo, p, hi) && (p == hi || OutOfFrames(k))
    ensures m.Shape() && s < PAGES && RoomForTables(m, s, lo, hi)
  {
    assert m.Shape() && k.Shape();
    RoomAtEnd(k, s, p, hi);
  }

  /** How the stack loop over pages `lo .. hi` ends. If the frames suffice for the tables: the lowest `mapped` pages hold frames of
      their own, all of them if `ok`, all that memory allowed if not, and frames are conserved. If not: a page table sits in
      frame 0 and the tables are no longer in order. */
  ghost predicate StackOutcome(m: Machine, n: Machine, s: nat, lo: nat, hi: nat, ok: bool, mapped: nat) {
    m.Shape() && n.Shape() && s < PAGES &&
    if RoomForTables(m, s, lo, hi) then
      Conserved(n) && Guarded(n) && NoStale(n.table) && StackMapped(m, n, s, lo, lo + mapped) &&
      if ok then lo + mapped == hi else lo + mapped < hi && OutOfFrames(n)
    else !n.Structure()
  }

  lemma StackEnds(m: Machine, k: Machine, s: nat, lo: nat, p: nat, hi: nat, ok: bool)
    requires Stuck(m, k, s, lo, hi) || Growing(m, k, s, lo, p, hi)
    requires lo <= p && if ok then p == hi else p < hi && OutOfFrames(k)
    ensures StackOutcome(m, k, s, lo, hi, ok, p - lo)
  {
    if !Stuck(m, k, s, lo, hi) {
      GrowingFacts(m, k, s, lo, p, hi);
      GrowingEnds(m, k, s, lo, p, hi);
    }
    hide Growing, Conserved, Guarded, StackMapped, RoomForTables, Machine.Structure;
  }

  lemma StackOutcomeFacts(m: Machine, n: Machine, s: nat, lo: nat, hi: nat, ok: bool, mapped: nat)
    requires StackOutcome(m, n, s, lo, hi, ok, mapped)
    ensures m.Shape() && n.Shape() && s < PAGES
    ensures if RoomForTables(m, s, lo, hi) then n.Structure() && Conserved(n) && Guarded(n) && NoStale(n.table) else !n.Structure()
  {
    hide RoomForTables;
  }

  lemma UserMappedTable(k: Machine, n: Machine, s: nat, p: nat, e: Entry)
    requires UserMapped(k, n, s, p, e)
    ensures n.table == k.table && n.spaces == k.spaces && n.Shape()
  {
  }

  // ----- Every run

  /** One step of the memory manager: an unmapped kernel page takes the next frame, a kernel page gives its frame up,
      an image is handed over to a new address space, or an unmapped user page of a process takes a free frame, writable, cached
      and open to users. */
  ghost predicate Step(m: Machine, n: Machine) {
    m.Shape() &&
    ((exists p: nat, f: Frame :: p < PAGES && !m.table[p].present && NextFrame(m, f) && n == MapNext(m, p, f)) ||
     (exists p: nat :: p < PAGES && Freeable(m, p) && n == FreedPage(m, p)) ||
     (exists v: nat, base: nat, count: nat :: Transferred(m, n, v, base, count)) ||
     (exists s: nat, p: nat, f: Frame :: UserMapped(m, n, s, p, Mapping(f, true, true, true))))
  }

  ghost predicate IsRun(ms: seq<Machine>) {
    |ms| > 0 && forall i :: 0 <= i < |ms| - 1 ==> Step(ms[i], ms[i + 1])
  }

  lemma StepConserves(m: Machine, n: Machine)
    requires Conserved(m) && Step(m, n)
    ensures Conserved(n)
  {
    hide Conserved, Transferred, UserMapped;
    if exists p: nat, f: Frame :: p < PAGES && !m.table[p].present && NextFrame(m, f) && n == MapNext(m, p, f) {
      var p: nat, f: Frame :| p < PAGES && !m.table[p].present && NextFrame(m, f) && n == MapNext(m, p, f);
      MapNextConserves(m, p, f);
    } else if exists p: nat :: p < PAGES && Freeable(m, p) && n == FreedPage(m, p) {
      var p: nat :| p < PAGES && Freeable(m, p) && n == FreedPage(m, p);
      FreedPageConserves(m, p);
    } else if exists v: nat, base: nat, count: nat :: Transferred(m, n, v, base, count) {
      var v: nat, base: nat, count: nat :| Transferred(m, n, v, base, count);
      TransferConserves(m, n, v, base, count);
    } else {
      var s: nat, p: nat, f: Frame :| UserMapped(m, n, s, p, Mapping(f, true, true, true));
      UserMappedConserves(m, n, s, p, Mapping(f, true, true, true));
    }
  }

  /** In every state of every run, a frame under the bitmap is held by exactly one place if it is marked and by none
      otherwise. */
  lemma {:induction false} RunsConserve(ms: seq<Machine>, i: nat, f: nat)
    requires IsRun(ms) && Conserved(ms[0]) && i < |ms|
    ensures Conserved(ms[i])
    ensures f in ms[i].taken ==> exists o :: Holds(ms[i], o, f) && forall c :: Holds(ms[i], c, f) ==> c == o
    ensures ms[i].dead <= f && f !in ms[i].taken ==> forall o :: !Holds(ms[i], o, f)
  {
    if i > 0 {
      RunsConserve(ms, i - 1, f);
      StepConserves(ms[i - 1], ms[i]);
    }
    if f in ms[i].taken {
      var o :| Holds(ms[i], o, f);
      assert ms[i].dead <= f;
    }
  }

  lemma StepGuards(m: Machine, n: Machine)
    requires Conserved(m) && Guarded(m) && Step(m, n)
    ensures Guarded(n)
  {
    assert m.Structure();
    StepConserves(m, n);
    assert n.Shape();
    hide Conserved, Transferred, UserMapped, Guarded, Machine.Structure, Machine.Shape;
    if exists p: nat, f: Frame :: p < PAGES && !m.table[p].present && NextFrame(m, f) && n == MapNext(m, p, f) {
      var p: nat, f: Frame :| p < PAGES && !m.table[p].present && NextFrame(m, f) && n == MapNext(m, p, f);
      MapNextGuards(m, p, f);
    } else if exists p: nat :: p < PAGES && Freeable(m, p) && n == FreedPage(m, p) {
      var p: nat :| p < PAGES && Freeable(m, p) && n == FreedPage(m, p);
      FreedPageGuards(m, p);
    } else if exists v: nat, base: nat, count: nat :: Transferred(m, n, v, base, count) {
      var v: nat, base: nat, count: nat :| Transferred(m, n, v, base, count);
      TransferGuards(m, n, v, base, count);
    } else {
      var s: nat, p: nat, f: Frame :| UserMapped(m, n, s, p, Mapping(f, true, true, true));
      OpenMapping(f);
      UserMappedGuards(m, n, s, p, Mapping(f, true, true, true));
    }
  }

  lemma OpenMapping(f: Frame)
    ensures OpenToUsers(Mapping(f, true, true, true))
  {
  }

  /** After start-up every mapped page is for the kernel only. */
  lemma BootIsGuarded(m: Machine, kernelFrames: nat)
    requires m.Shape() && m.spaces == {} && kernelFrames < PAGES - KERNEL_PAGE
    requires forall p :: 0 <= p < PAGES ==> m.table[p] == BootEntry(p, kernelFrames)
    ensures Guarded(m)
  {
  }

  lemma {:induction false} RunsStayGuarded(ms: seq<Machine>, i: nat)
    requires IsRun(ms) && Conserved(ms[0]) && Guarded(ms[0]) && i < |ms|
    ensures Guarded(ms[i])
  {
    hide Conserved, Guarded, Step;
    if i > 0 {
      RunsStayGuarded(ms, i - 1);
      RunsConserve(ms, i - 1, 0);
      StepGuards(ms[i - 1], ms[i]);
    }
  }

  /** In every state of every run, with or without processes, what the kernel maps is writable and closed to users. */
  lemma RunsKeepKernelClosed(ms: seq<Machine>, i: nat, p: nat)
    requires IsRun(ms) && Conserved(ms[0]) && Guarded(ms[0]) && i < |ms| && p < PAGES
    ensures ms[i].Shape() && (ms[i].table[p].present ==> ms[i].table[p].writable && !ms[i].table[p].user)
  {
    hide Conserved, IsRun;
    RunsStayGuarded(ms, i);
    if ms[i].table[p].present {
      GuardedKernelPage(ms[i], p);
    }
  }

  /** What the rights mean for a page of the kernel, a page table of a process, and an address of its half. */
  lemma GuardedMeans(m: Machine, p: nat, s: nat, a: nat)
    requires Guarded(m) && p < PAGES && s in m.spaces && s < PAGES && a < 0xC000_0000
    ensures m.table[p].present ==> m.table[p].writable && !m.table[p].user
    ensures p < KERNEL_PDE && m.Pde(s, p).present ==> m.Pde(s, p).writable && m.Pde(s, p).user
    ensures UserMayWrite(m, s, a) <==> m.Lookup(s, a / 0x1000).present
  {
    if m.table[p].present {
      GuardedKernelPage(m, p);
    }
    var e := Slot(m, Table(s, p));
    WritableIffMapped(m, s, a);
    hide Guarded, UserMayWrite, Machine.Lookup;
  }

  /** Protection, in every state of every run: what the kernel maps is writable and closed to processes; every page table of a
      process is open to it; and a process may write at an address of its half exactly when something is mapped there. */
  lemma RunsProtect(ms: seq<Machine>, i: nat, p: nat, s: nat, a: nat)
    requires IsRun(ms) && Conserved(ms[0]) && Guarded(ms[0]) && i < |ms|
    requires p < PAGES && s in ms[i].spaces && s < PAGES && a < 0xC000_0000
    ensures ms[i].Shape()
    ensures ms[i].table[p].present ==> ms[i].table[p].writable && !ms[i].table[p].user
    ensures p < KERNEL_PDE && ms[i].Pde(s, p).present ==> ms[i].Pde(s, p).writable && ms[i].Pde(s, p).user
    ensures UserMayWrite(ms[i], s, a) <==> ms[i].Lookup(s, a / 0x1000).present
  {
    RunsStayGuarded(ms, i);
    GuardedMeans(ms[i], p, s, a);
  }

  /** Every byte of the pages a stack was given is the process's to write. */
  lemma StackIsUsable(m: Machine, n: Machine, s: nat, lo: nat, hi: nat, a: nat)
    requires StackMapped(m, n, s, lo, hi) && Guarded(n) && lo * 0x1000 <= a < hi * 0x1000
    ensures n.Shape() && s < PAGES && a < 0xC000_0000 && UserMayWrite(n, s, a)
  {
    assert lo <= a / 0x1000 < hi && s < PAGES;
    assert StackEntry(m, n.Lookup(s, a / 0x1000));
    WritableIffMapped(n, s, a);
  }
}
