/**
The x86 virtual memory manager: the kernel's flat page table and the two-level tables of processes, whose
directories and page tables live in physical frames reached through temporary kernel mappings.
*/
module Paging {
  import opened PageTables
  import opened FrameOwnership
  import opened AccessRights
  import opened AddressSpaces
  import opened KernelPages
  import opened PhysMem

  class Mmu {
    const table: array<Entry>
    const kernelDir: array<Entry>
    const frames: FrameAllocator
    var phys: seq<seq<Entry>>
    ghost var spaces: set<nat>

    ghost function M(): Machine
      reads this, table, frames.bitmap
    {
      Machine(table[..], phys, frames.bitmap.marked, spaces, frames.bitmap.deadZone, frames.bitmap.len)
    }

    /** The tables and the bitmap do not share storage. */
    ghost predicate Separate() {
      kernelDir.Length == ENTRIES && kernelDir != table && frames.bitmap.words as object != table &&
      frames.bitmap.words as object != kernelDir
    }

    /** Directories and page tables are in order and frames are marked as used. */
    ghost predicate Ready()
      reads this, table, kernelDir, frames.bitmap, frames.bitmap.words
    {
      frames.Valid() && M().Structure() && NoStale(table[..]) && Separate()
    }

    ghost predicate Valid()
      reads this, table, kernelDir, frames.bitmap, frames.bitmap.words
    {
      Ready() && Conserved(M()) && Guarded(M())
    }

    /** `X86VirtMemMgrInit`: the low megabyte is identity mapped and the kernel image is mapped at the kernel half.
        `tablesAt` is the frame where the kernel's page table itself starts. */
    constructor (table: array<Entry>, kernelDir: array<Entry>, frames: FrameAllocator, phys: seq<seq<Entry>>,
                 kernelEnd: nat, tablesAt: nat)
      requires table.Length == PAGES && kernelDir.Length == ENTRIES && table != kernelDir
      requires |phys| == PAGES && forall f :: 0 <= f < PAGES ==> |phys[f]| == ENTRIES
      requires KERNEL_START <= kernelEnd && 255 <= KernelFrames(kernelEnd) < PAGES - KERNEL_PAGE
      requires tablesAt + ENTRIES <= PAGES
      requires frames.bitmap.words as object != table && frames.bitmap.words as object != kernelDir
      requires frames.Valid() && frames.bitmap.marked == {} && frames.bitmap.deadZone == KernelFrames(kernelEnd) + 1
      modifies table, kernelDir
      ensures Valid() && spaces == {} && this.table == table && this.frames == frames && this.kernelDir == kernelDir
      ensures forall p :: 0 <= p < PAGES ==> table[p] == BootEntry(p, KernelFrames(kernelEnd))
      ensures forall p :: 0 < p < 0x100 ==> KernelOnly(table[p]) && table[p].cacheDisable && table[p].frame == p
      ensures forall p :: 0xC0000 < p <= 0xC0000 + KernelFrames(kernelEnd) ==> KernelMemory(table[p]) && table[p].frame == p - 0xC0000
      ensures forall p :: 0 <= p < PAGES && table[p].present ==> 0 < p < 0x100 || 0xC0000 < p <= 0xC0000 + KernelFrames(kernelEnd)
      ensures forall i :: 0 <= i < ENTRIES ==> OpenToUsers(kernelDir[i]) && kernelDir[i].frame == tablesAt + i
      ensures forall i :: 0 <= i < ENTRIES ==> kernelDir[i].writeThrough && kernelDir[i].cacheDisable && !kernelDir[i].large
    {
      this.table, this.kernelDir, this.frames, this.phys, this.spaces := table, kernelDir, frames, phys, {};
      new;
      InitTables(KernelFrames(kernelEnd), tablesAt);
      StaticMachine(M());
      BootIsGuarded(M(), KernelFrames(kernelEnd));
    }

    method InitTables(kernelFrames: nat, tablesAt: nat)
      requires table.Length == PAGES && kernelDir.Length == ENTRIES && table != kernelDir
      requires 255 <= kernelFrames < PAGES - KERNEL_PAGE && tablesAt + ENTRIES <= PAGES
      modifies table, kernelDir
      ensures forall p :: 0 <= p < PAGES ==> table[p] == BootEntry(p, kernelFrames)
      ensures forall i :: 0 <= i < ENTRIES ==> kernelDir[i] == Entry(true, true, true, true, true, false, false, tablesAt + i)
    {
      for p := 0 to PAGES
        invariant forall q :: 0 <= q < p ==> table[q] == ZERO
      {
        table[p] := ZERO;
      }
      for i := 0 to ENTRIES
        invariant forall q :: 0 <= q < PAGES ==> table[q] == ZERO
        invariant forall q :: 0 <= q < i ==> kernelDir[q] == Entry(true, true, true, true, true, false, false, tablesAt + q)
      {
        kernelDir[i] := Entry(true, true, true, true, true, false, false, tablesAt + i);
      }
      MapRange(1, 1, 255, false);
      MapRange(KERNEL_PAGE + 1, 1, kernelFrames, true);
    }

    /** `MapRange` into the kernel directory, writable and not accessible to users. */
    method MapRange(virt: nat, first: nat, n: nat, cached: bool)
      requires 0 < virt && virt + n <= PAGES && first + n <= PAGES && table.Length == PAGES
      modifies table
      ensures forall p :: 0 <= p < PAGES ==>
        table[p] == if virt <= p < virt + n then Mapping(first + (p - virt), true, cached, false) else old(table[p])
    {
      for i := 0 to n
        invariant forall p :: 0 <= p < PAGES ==>
          table[p] == if virt <= p < virt + i then Mapping(first + (p - virt), true, cached, false) else old(table[p])
      {
        table[virt + i] := Mapping(first + i, true, cached, false);
      }
    }

    /** `FindContiguousFreeFrames` in the kernel directory: the lowest run of `n` unmapped pages, or 0. */
    method FindContiguousFreeFrames(n: nat, kernel: bool) returns (base: nat)
      requires table.Length == PAGES
      ensures base == 0 <==> n == 0 || !RunExists(table[..], n, kernel)
      ensures base != 0 ==> SearchFrom(kernel) <= base && FreePages(table[..], base, n)
      ensures base != 0 ==> forall at: nat :: SearchFrom(kernel) <= at < base ==> !FreePages(table[..], at, n)
    {
      var found: nat := 0;
      var page: nat := SearchFrom(kernel);
      while page < PAGES
        invariant SearchFrom(kernel) <= page <= PAGES
        invariant found <= page - SearchFrom(kernel) && (n > 0 ==> found < n)
        invariant forall p :: page - found <= p < page ==> !table[p].present
        invariant n > 0 ==> forall at: nat :: SearchFrom(kernel) <= at < page - found ==> !FreePages(table[..], at, n)
      {
        if table[page].present {
          forall at: nat | SearchFrom(kernel) <= at <= page && n > 0
            ensures !FreePages(table[..], at, n)
          {
            assert table[..][page].present;
          }
          found := 0;
        } else {
          found := found + 1;
          if found == n {
            assert FreePages(table[..], page - n + 1, n);
            return page - n + 1;
          }
        }
        page := page + 1;
      }
      return 0;
    }

    /** A word read through a kernel mapping. */
    method Load(v: nat, i: nat) returns (e: Entry)
      requires M().Shape() && v < PAGES && i < ENTRIES
      ensures e == M().Pde(v, i)
    {
      e := phys[table[v].frame][i];
    }

    /** A word written through a kernel mapping. */
    method Store(v: nat, i: nat, e: Entry)
      requires M().Shape() && v < PAGES && i < ENTRIES
      modifies this`phys
      ensures phys == var f := table[v].frame; old(phys)[f := old(phys)[f][i := e]]
    {
      var f := table[v].frame;
      phys := phys[f := phys[f][i := e]];
    }

    /** `MapFrame` into the kernel directory; page 0 is left alone. */
    method MapFrame(v: nat, frame: Frame)
      requires v < PAGES && table.Length == PAGES
      modifies table
      ensures table[..] == if v == 0 then old(table[..]) else old(table[..])[v := KernelMapping(frame)]
    {
      if v == 0 {
        return;
      }
      table[v] := KernelMapping(frame);
    }

    /** `UnmapFrame` in the kernel directory. */
    method UnmapFrame(v: nat)
      requires v < PAGES && table.Length == PAGES
      modifies table
      ensures table[..] == old(table[..])[v := ZERO]
    {
      table[v] := ZERO;
    }

    /** `AllocateMap`: a kernel-half window onto a physical frame. */
    method AllocateMap(frame: Frame) returns (v: nat)
      requires table.Length == PAGES && KernelRoom(table[..])
      modifies table
      ensures KERNEL_PAGE < v < PAGES && !old(table[v]).present
      ensures table[..] == old(table[..])[v := KernelMapping(frame)]
    {
      OneFreePage(table[..]);
      v := FindContiguousFreeFrames(1, true);
      assert FreePages(table[..], v, 1) && !table[..][v].present;
      MapFrame(v, frame);
    }

    /** `GetPte` through a process directory, for a page of the user half. The window opened onto the page
        table is closed again, so nothing is changed. */
    method GetPte(s: nat, p: nat) returns (pte: Entry)
      requires Ready() && s in spaces && p < KERNEL_PAGE && KernelRoom(table[..])
      modifies table
      ensures pte == old(M().Lookup(s, p))
      ensures Ready() && M() == old(M())
    {
      hide FrameAllocator.Valid;
      var pde := Load(s, p / ENTRIES);
      if !pde.present {
        return ZERO;
      }
      var window := AllocateMap(pde.frame);
      pte := phys[table[window].frame][p % ENTRIES];
      UnmapFrame(window);
      assert table[..] == old(table[..]);
    }

    /** `CreatePageTable`: a zeroed frame becomes the page table for directory entry `i` of space `s`; the code does not notice
        when there is none and uses frame 0. */
    method CreatePageTable(s: nat, i: nat) returns (ghost f: Frame)
      requires Ready() && s in spaces && i < KERNEL_PDE && !M().Pde(s, i).present && KernelRoom(table[..])
      modifies this`phys, table, frames.bitmap, frames.bitmap.words
      ensures frames.Valid() && table[..] == old(table[..])
      ensures NextFrame(old(M()), f) && M() == WithTable(old(M()), s, i, f)
    {
      hide FrameAllocator.Valid;
      ghost var m := M();
      var frame := frames.AllocateFrame();
      f := frame;
      assert NextFrame(m, f);
      assert table[..] == m.table;
      var window := AllocateMap(frame);
      phys := phys[table[window].frame := ZeroPage()];
      UnmapFrame(window);
      assert table[..] == m.table;
      Store(s, i, TableEntry(frame));
    }

    /** `SetPte` through a process directory, for a page of the user half. With the page table or a frame for it at hand, the
        two-level tables then look like the flat map with one entry replaced: page `p` of `s` reads back `pte`, and every
        other user page of every space, and the kernel's own table, are as before, whether or not a page table had to be
        created. Otherwise the new table ends up in frame 0 and the tables are no longer in order. */
    method SetPte(s: nat, p: nat, pte: Entry)
      requires Ready() && s in spaces && p < KERNEL_PAGE && KernelRoom(table[..])
      modifies this`phys, table, frames.bitmap, frames.bitmap.words
      ensures frames.Valid() && table[..] == old(table[..]) && M().Shape()
      ensures M().Structure() <==> TableAtHand(old(M()), s, p)
      ensures TableAtHand(old(M()), s, p) ==> Ready() && EntrySet(old(M()), M(), s, p, pte)
      ensures !TableAtHand(old(M()), s, p) ==> M() == old(M()).(phys := M().phys)
    {
      hide FrameAllocator.Valid;
      assert M().Shape();
      hide EntrySet, Machine.Structure, WithTable, WithEntry;
      ghost var m := M();
      var pde := Load(s, p / ENTRIES);
      if !pde.present {
        ghost var f := CreatePageTable(s, p / ENTRIES);
        TableFor(m, s, p, f, pte);
      } else {
        SetInExistingTable(m, s, p, pte);
      }
      WriteTable(s, p, pte);
    }

    /** The store of `SetPte`, through a window onto the page table. */
    method WriteTable(s: nat, p: nat, pte: Entry)
      requires frames.Valid() && Separate() && NoStale(table[..]) && KernelRoom(table[..])
      requires M().Shape() && s < PAGES && p < KERNEL_PAGE && M().Pde(s, p / ENTRIES).present
      modifies this`phys, table
      ensures frames.Valid() && table[..] == old(table[..]) && M() == WithEntry(old(M()), s, p, pte)
    {
      hide FrameAllocator.Valid;
      ghost var m := M();
      var pde := Load(s, p / ENTRIES);
      var window := AllocateMap(pde.frame);
      Store(window, p % ENTRIES, pte);
      UnmapFrame(window);
      assert table[..] == m.table;
    }

    /** `X86AllocateContiguousVirtualFrames` in the kernel directory. If the run of pages exists (or none is wanted) frames stay
        conserved, also when memory runs out on the way. If it does not exist the code still takes frames, starting with
        one for page 0 which is never mapped, and writes over pages 1 to n - 1: conservation then survives exactly when there
        was no frame to take and no frame mapped there. */
    method AllocateContiguous(n: nat, kernel: bool) returns (base: nat)
      requires Valid() && (RunExists(table[..], n, kernel) || NoDirectoryBelow(M(), n))
      modifies table, frames.bitmap, frames.bitmap.words
      ensures base == 0 <==> n == 0 || !RunExists(old(table[..]), n, kernel)
      ensures base != 0 ==> SearchFrom(kernel) <= base && FreePages(old(table[..]), base, n)
      ensures base != 0 ==> forall at: nat :: SearchFrom(kernel) <= at < base ==> !FreePages(old(table[..]), at, n)
      ensures n > 0 ==> forall at: nat :: (if kernel then 0xC0000 < at else 0 < at) && FreePages(old(table[..]), at, n) ==> 0 < base <= at
      ensures base != 0 ==> Valid() && RunMapped(old(M()), M(), base, n)
      ensures base != 0 ==> forall p :: base <= p < base + n ==> KernelMemory(table[p])
      ensures n == 0 ==> Valid() && M() == old(M())
      ensures base == 0 && n > 0 ==> frames.Valid() && M().Structure()
      ensures base == 0 && n > 0 ==> (Conserved(M()) <==> OutOfFrames(old(M())) && NoFrameBelow(old(M()), n))
    {
      base := FindContiguousFreeFrames(n, kernel);
      if base == 0 {
        OverwriteFrames(n);
      } else {
        MapFrames(base, n);
      }
    }

    /** One round of the mapping loop: a frame is taken, then mapped unless the page is page 0. */
    method MapNewFrame(page: nat) returns (frame: Frame)
      requires frames.Valid() && M().Shape() && page < PAGES && frames.bitmap.words as object != table
      modifies table, frames.bitmap, frames.bitmap.words
      ensures frames.Valid() && NextFrame(old(M()), frame)
      ensures M() == TakeAndMap(old(M()), page, frame)
    {
      ghost var k := M();
      var f := frames.AllocateFrame();
      frame := f;
      assert M().table == k.table;
      MapFrame(page, frame);
    }

    /** The mapping loop over a run of unmapped pages. */
    method MapFrames(base: nat, n: nat)
      requires Valid() && 0 < base && FreePages(table[..], base, n)
      modifies table, frames.bitmap, frames.bitmap.words
      ensures Valid() && RunMapped(old(M()), M(), base, n) && forall p :: base <= p < base + n ==> KernelMemory(table[p])
    {
      ghost var m := M();
      assert Progress(m, m, base, n, 0);
      assert forall p :: base <= p < base + n ==> !m.table[p].present;
      MapRun(base, n, m);
      ProgressFacts(m, M(), base, n, n);
      RunMappedGuards(m, M(), base, n);
      hide Conserved, Guarded, Machine.Structure, RunMapped, Progress, KernelMemory, FrameAllocator.Valid;
      assert forall p :: base <= p < base + n ==> table[p] == M().table[p];
    }

    method MapRun(base: nat, n: nat, ghost m: Machine)
      requires frames.Valid() && frames.bitmap.words as object != table && Progress(m, M(), base, n, 0)
      modifies table, frames.bitmap, frames.bitmap.words
      ensures frames.Valid() && Progress(m, M(), base, n, n)
    {
      hide *;
      for i := 0 to n
        invariant frames.Valid() && Progress(m, M(), base, n, i)
      {
        ghost var k := M();
        ProgressFacts(m, k, base, n, i);
        var frame := MapNewFrame(base + i);
        ProgressNext(m, k, base, n, i, frame);
      }
    }

    /** The same loop when no run was found: it starts at page 0. Addresses are 32 bits wide, so pages wrap at 2^20. */
    method OverwriteFrames(n: nat)
      requires Valid() && NoDirectoryBelow(M(), n)
      modifies table, frames.bitmap, frames.bitmap.words
      ensures frames.Valid() && M().Structure()
      ensures n == 0 ==> M() == old(M()) && Valid()
      ensures n > 0 ==> (Conserved(M()) <==> OutOfFrames(old(M())) && NoFrameBelow(old(M()), n))
    {
      hide FrameAllocator.Valid;
      ghost var m := M();
      OverwritingStarts(m);
      assert m.Shape();
      hide Conserved, Guarded, Machine.Structure, Overwriting, TakeAndMap, FreeFrame, NoStale, NextFrame, OutOfFrames, NoFrameBelow;
      ghost var lost: nat := 0;
      for i := 0 to n
        invariant frames.Valid() && (i == 0 ==> M() == m) && Overwriting(m, M(), i, lost)
      {
        ghost var k := M();
        OverwritingFacts(m, k, i, lost);
        var frame := MapNewFrame(i % PAGES);
        OverwritingNext(m, k, i, lost, frame);
        lost := if i == 0 then frame else lost;
      }
      OverwritingFacts(m, M(), n, lost);
      if n > 0 {
        OverwritingEnds(m, M(), n, lost);
      }
    }

    /** `X86FreeContiguousVirtualFrames` in the kernel directory, for pages that hold no directory and no static frame. */
    method FreeContiguous(base: nat, n: nat)
      requires Valid() && base + n <= PAGES && forall p :: base <= p < base + n ==> Freeable(M(), p)
      modifies table, frames.bitmap, frames.bitmap.words
      ensures Valid() && RunUnmapped(old(M()), M(), base, n)
    {
      hide FrameAllocator.Valid;
      ghost var m := M();
      UnmappedNone(m, base);
      hide Conserved, Guarded, Machine.Structure, RunUnmapped, FreedPage, Freeable;
      for i := 0 to n
        invariant Valid() && RunUnmapped(m, M(), base, i)
      {
        ghost var k := M();
        FreeNext(m, k, base, n, i);
        UnmapAndFree(base + i);
      }
    }

    /** One round of the freeing loop. */
    method UnmapAndFree(page: nat)
      requires Valid() && page < PAGES && Freeable(M(), page)
      modifies table, frames.bitmap, frames.bitmap.words
      ensures Valid() && M() == FreedPage(old(M()), page)
    {
      ghost var k := M();
      FreedPageConserves(k, page);
      FreedPageGuards(k, page);
      var pte := table[page];
      if pte.present {
        if pte.frame != 0 {
          assert Holds(k, KernelPage(page), pte.frame);
          frames.FreeFrame(pte.frame);
        }
        UnmapFrame(page);
      }
    }

    /** The opening of `MapProcess`: a zeroed directory in a new frame, mapped for good in the kernel half. */
    method NewDirectory() returns (v: nat)
      requires Ready() && KernelRoom(table[..]) && FreeFrames(M()) != {}
      modifies this, table, frames.bitmap, frames.bitmap.words
      ensures frames.Valid() && KERNEL_PAGE < v < PAGES && !old(table[v]).present
      ensures table[v].present && FreeFrame(old(M()), table[v].frame) && M() == WithSpace(old(M()), v, table[v].frame)
    {
      hide FrameAllocator.Valid;
      ghost var m := M();
      ghost var g :| g in FreeFrames(m);
      assert FreeFrame(m, g);
      var frame := frames.AllocateFrame();
      assert FreeFrame(m, frame);
      assert table[..] == m.table;
      v := AllocateMap(frame);
      phys := phys[table[v].frame := ZeroPage()];
      spaces := spaces + {v};
    }

    /** The copying loop of `MapProcess`: the image's entries become user pages of `v`. */
    method MapImage(v: nat, base: nat, n: nat, ghost m: Machine)
      requires Ready() && Building(m, M(), v, base, 0) && KernelRoom(table[..])
      requires base + n <= PAGES && USER_PAGE + n <= KERNEL_PAGE && !(base <= v < base + n)
      requires |FreeFrames(M())| >= TablesFor(n)
      modifies this`phys, table, frames.bitmap, frames.bitmap.words
      ensures Ready() && Building(m, M(), v, base, n) && table[..] == old(table[..])
    {
      hide FrameAllocator.Valid;
      hide Machine.Structure, Building, EntrySet, TablesFor, FreeFrames, KernelRoom, NoStale, Machine.Pde, FreeFrame;
      for i := 0 to n
        invariant Ready() && Building(m, M(), v, base, i) && table[..] == old(table[..])
        invariant |FreeFrames(M())| + TablesFor(i) >= TablesFor(n)
      {
        ghost var k := M();
        BuildingFacts(m, k, v, base, i, n);
        var pte := table[base + i];
        assert pte == m.table[base + i];
        SetPte(v, USER_PAGE + i, pte.(writable := true, user := true));
        EntrySetTable(k, M(), v, USER_PAGE + i, pte.(writable := true, user := true));
        BuildingNext(m, k, M(), v, base, i);
      }
    }

    /** The last loop of `MapProcess`: the kernel half of the new directory is the kernel's own. */
    method CopyKernelHalf(v: nat, base: nat, n: nat, ghost m: Machine)
      requires Ready() && Building(m, M(), v, base, n)
      modifies this`phys
      ensures Ready() && Building(m, M(), v, base, n)
      ensures v in spaces && forall i :: KERNEL_PDE <= i < ENTRIES ==> M().Pde(v, i) == kernelDir[i]
    {
      hide FrameAllocator.Valid;
      hide Machine.Structure, Building;
      BuildingFacts(m, M(), v, base, n, n);
      for j := KERNEL_PDE to ENTRIES
        invariant Ready() && Building(m, M(), v, base, n) && M().Shape() && v < PAGES
        invariant forall i :: KERNEL_PDE <= i < j ==> M().Pde(v, i) == kernelDir[i]
      {
        ghost var k := M();
        BuildingKernelHalf(m, k, v, base, n, j, kernelDir[j]);
        Store(v, j, kernelDir[j]);
        assert M() == WithKernelPde(k, v, j, kernelDir[j]);
        BuildingFacts(m, M(), v, base, n, n);
      }
    }

    /** `X86CreateAddressSpace`: the image at kernel pages `base .. base + n` is handed over to a new process. User page i holds
        the frame kernel page `base + i` held, writable and open to users; the kernel no longer maps the image; the kernel
        half is shared; every other space is untouched; and every frame is still held exactly once. */
    method CreateAddressSpace(base: nat, n: nat) returns (v: nat)
      requires Valid() && base + n <= PAGES && USER_PAGE + n <= KERNEL_PAGE
      requires forall p :: base <= p < base + n ==> table[p].present && p !in spaces
      requires TwoKernelPages(table[..]) && |FreeFrames(M())| >= 1 + TablesFor(n)
      modifies this, table, frames.bitmap, frames.bitmap.words
      ensures Valid() && Transferred(old(M()), M(), v, base, n)
      ensures v < PAGES && PagesWritable(M(), v, 0x100, n) && SameMemory(old(table[..]), base, M(), v, n)
      ensures v in spaces && forall i :: KERNEL_PDE <= i < ENTRIES ==> M().Pde(v, i) == kernelDir[i]
    {
      hide FrameAllocator.Valid;
      ghost var m := M();
      hide Conserved, Guarded, Transferred, PagesWritable, SameMemory;
      RoomForTwo(m.table);
      v := NewDirectory();
      BuildingStarts(m, v, table[v].frame, base);
      RoomLeft(m.table, table[..], v);
      assert NoStale(table[..]);
      MapImage(v, base, n, m);
      CopyKernelHalf(v, base, n, m);
      UnmapImage(base, n, v, m);
      TransferConserves(m, M(), v, base, n);
      TransferGuards(m, M(), v, base, n);
      ImageIsUsable(m, M(), v, base, n);
    }

    /** The loop of `X86CreateAddressSpace`. */
    method UnmapImage(base: nat, n: nat, ghost v: nat, ghost m: Machine)
      requires Ready() && Building(m, M(), v, base, n) && !(base <= v < base + n)
      requires forall p :: base <= p < base + n ==> p !in m.spaces
      modifies table
      ensures Ready() && Transferred(m, M(), v, base, n)
      ensures forall i :: 0 <= i < ENTRIES ==> M().Pde(v, i) == old(M()).Pde(v, i)
    {
      hide FrameAllocator.Valid;
      hide Building, Unmapping, Machine.Structure, Transferred;
      ghost var k := M();
      BuildingFacts(m, k, v, base, n, n);
      BuildingSpaces(m, k, v, base, n);
      UnmappingStarts(k, base);
      for i := 0 to n
        invariant Ready() && Unmapping(k, M(), base, i)
      {
        UnmappingNext(k, M(), base, i);
        UnmappingFacts(k, M().(table := M().table[base + i := ZERO]), base, i + 1);
        UnmapFrame(base + i);
      }
      UnmappingFacts(k, M(), base, n);
      BuildingEnds(m, k, M(), v, base, n);
    }

    /** `X86CreateStack`: enough pages for `size` bytes below address `top` of space `s`, each with a frame of its own. The
        answer is the page-aligned top, or null if memory ran out; then only the lowest `mapped` pages have been mapped. All of
        this holds exactly when no page with a missing table is reached with a single frame left. */
    method CreateStack(s: nat, top: nat, size: nat) returns (aligned: nat, ghost mapped: nat)
      requires Valid() && s in spaces && PagesOf(size) < top / FRAME_SIZE <= KERNEL_PAGE && KernelRoom(table[..])
      requires UserPagesFree(M(), s, top / FRAME_SIZE - PagesOf(size), top / FRAME_SIZE)
      modifies this`phys, table, frames.bitmap, frames.bitmap.words
      ensures StackOutcome(old(M()), M(), s, top / FRAME_SIZE - PagesOf(size), top / FRAME_SIZE, aligned != 0, mapped)
      ensures Valid() <==> RoomForTables(old(M()), s, top / FRAME_SIZE - PagesOf(size), top / FRAME_SIZE)
      ensures aligned == 0 || aligned == PageBase(top)
      ensures Valid() ==> PagesWritable(M(), s, top / FRAME_SIZE - PagesOf(size), mapped)
    {
      hide *;
      var page := top / FRAME_SIZE;
      var ok;
      ok, mapped := CreateStackPages(s, page, PagesOf(size));
      aligned := if ok then PageBase(top) else 0;
      StackIsOpen(old(M()), s, page - PagesOf(size), page, ok, mapped);
    }

    /** A stack that was made can be used, from its first byte to its last. */
    lemma StackIsOpen(m: Machine, s: nat, lo: nat, hi: nat, ok: bool, mapped: nat)
      requires StackOutcome(m, M(), s, lo, hi, ok, mapped)
      ensures M().Shape() && s < PAGES
      ensures Valid() ==> PagesWritable(M(), s, lo, mapped)
    {
      if Valid() {
        forall a: nat | lo * 0x1000 <= a < (lo + mapped) * 0x1000
          ensures a < 0xC000_0000 && UserMayWrite(M(), s, a)
        {
          StackIsUsable(m, M(), s, lo, lo + mapped, a);
        }
      }
    }

    /** The stack of `n` pages below page `top`. */
    method CreateStackPages(s: nat, top: nat, n: nat) returns (ok: bool, ghost mapped: nat)
      requires Valid() && s in spaces && n <= top <= KERNEL_PAGE && KernelRoom(table[..]) && UserPagesFree(M(), s, top - n, top)
      modifies this`phys, table, frames.bitmap, frames.bitmap.words
      ensures StackOutcome(old(M()), M(), s, top - n, top, ok, mapped)
      ensures Valid() <==> RoomForTables(old(M()), s, top - n, top)
    {
      hide *;
      ghost var m := M();
      ValidParts();
      GrowingStarts(m, s, top - n, top);
      ok, mapped := GrowStack(s, top - n, top, m);
      StackOutcomeFacts(m, M(), s, top - n, top, ok, mapped);
      ValidParts();
    }

    lemma ValidParts()
      ensures M().table == table[..] && M().spaces == spaces
      ensures Valid() <==> frames.Valid() && Separate() && NoStale(M().table) && M().Structure() && Conserved(M()) && Guarded(M())
    {
    }

    /** The stack loop, from page `lo` up. */
    method GrowStack(s: nat, lo: nat, top: nat, ghost m: Machine) returns (ok: bool, ghost mapped: nat)
      requires frames.Valid() && Separate() && Growing(m, M(), s, lo, lo, top)
      modifies this`phys, table, frames.bitmap, frames.bitmap.words
      ensures frames.Valid() && StackOutcome(m, M(), s, lo, top, ok, mapped)
    {
      hide *;
      var p := lo;
      mapped := 0;
      GrowingFacts(m, M(), s, lo, lo, top);
      while p < top
        invariant lo <= p <= top && mapped == p - lo && frames.Valid()
        invariant Stuck(m, M(), s, lo, top) || Growing(m, M(), s, lo, p, top)
      {
        var frame := TakeUserPage(s, p, top, m, lo);
        if frame == 0 {
          StackEnds(m, M(), s, lo, p, top, false);
          return false, mapped;
        }
        p, mapped := p + 1, mapped + 1;
      }
      StackEnds(m, M(), s, lo, p, top, true);
      return true, mapped;
    }

    /** One round of the stack loop. */
    method TakeUserPage(s: nat, p: nat, ghost top: nat, ghost m: Machine, ghost lo: nat) returns (frame: Frame)
      requires frames.Valid() && Separate() && p < top && (Stuck(m, M(), s, lo, top) || Growing(m, M(), s, lo, p, top))
      modifies this`phys, table, frames.bitmap, frames.bitmap.words
      ensures frames.Valid()
      ensures frame == 0 ==> M() == old(M()) && OutOfFrames(M())
      ensures frame != 0 ==> Stuck(m, M(), s, lo, top) || Growing(m, M(), s, lo, p + 1, top)
    {
      hide FrameAllocator.Valid, Stuck, Growing;
      ghost var k := M();
      var f := frames.AllocateFrame();
      frame := f;
      assert M().table == k.table;
      if frame == 0 {
        return;
      }
      NotStuck(m, k, s, lo, top, frame);
      MapUserPage(s, p, frame, top, k, m, lo);
    }

    /** `MapFrame` for a user page, once its frame has been taken. */
    method MapUserPage(s: nat, p: nat, frame: Frame, ghost top: nat, ghost k: Machine, ghost m: Machine, ghost lo: nat)
      requires frames.Valid() && Separate() && p < top && Growing(m, k, s, lo, p, top)
      requires FreeFrame(k, frame) && M() == k.(taken := k.taken + {frame})
      modifies this`phys, table, frames.bitmap, frames.bitmap.words
      ensures frames.Valid()
      ensures Stuck(m, M(), s, lo, top) || Growing(m, M(), s, lo, p + 1, top)
    {
      hide FrameAllocator.Valid, Stuck, Growing;
      GrowingFacts(m, k, s, lo, p, top);
      MoreTaken(k, frame);
      hide Machine.Structure, EntrySet, Conserved, Guarded, NoStale, KernelRoom, StackMapped;
      SetPte(s, p, Mapping(frame, true, true, true));
      PageMappedOrStuck(m, k, M(), s, lo, p, top, frame);
    }

    /** After start-up, with at least one frame free, asking for every page loses a frame. */
    method AskForEveryPage(kernel: bool) returns (base: nat)
      requires Valid() && spaces == {} && frames.bitmap.marked == {} && frames.bitmap.deadZone < frames.bitmap.len
      modifies table, frames.bitmap, frames.bitmap.words
      ensures base == 0 && !Conserved(M())
    {
      hide FrameAllocator.Valid;
      ghost var m := M();
      assert FreeFrame(m, m.dead);
      base := AllocateContiguous(PAGES, kernel);
    }

    /** Freeing what was allocated restores the kernel's table and the bitmap, even if memory ran out on the way. */
    method AllocateThenFree(n: nat, kernel: bool) returns (base: nat)
      requires Valid() && RunExists(table[..], n, kernel)
      modifies table, frames.bitmap, frames.bitmap.words
      ensures Valid() && M() == old(M())
    {
      hide Conserved, Guarded, Machine.Structure, RunMapped, RunUnmapped;
      ghost var m := M();
      base := AllocateContiguous(n, kernel);
      if base != 0 {
        ghost var k := M();
        MappedIsFreeable(m, k, base, n);
        FreeContiguous(base, n);
        UnmapUndoesMap(m, k, M(), base, n);
      }
    }
  }
}
