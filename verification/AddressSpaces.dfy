/** Building a process address space out of pages mapped in the kernel, step by step. */
module AddressSpaces {
  import opened PageTables
  import opened FrameOwnership

  /** Page tables needed for the first `i` user pages. */
  function TablesFor(i: nat): nat {
    if i == 0 then 0 else (USER_PAGE + i - 1) / ENTRIES + 1
  }

  ghost function FreeFrames(m: Machine): set<nat> {
    set f: nat | m.dead <= f < m.len && f !in m.taken
  }

  /** What user page `p` holds after `i` pages of the image at kernel page `base` have been moved. */
  function MovedEntry(table: seq<Entry>, base: nat, i: nat, p: nat): Entry
    requires base + i <= |table|
  {
    if USER_PAGE <= p < USER_PAGE + i then table[base + (p - USER_PAGE)].(writable := true, user := true) else ZERO
  }

  /** The space `v` under construction after `i` pages; the kernel still maps the image as well. */
  ghost predicate Building(m: Machine, k: Machine, v: nat, base: nat, i: nat) {
    m.Structure() && k.Structure() && k.dead == m.dead && k.len == m.len &&
    KERNEL_PAGE < v < PAGES && base + i <= PAGES && USER_PAGE + i <= KERNEL_PAGE &&
    v !in m.spaces && !m.table[v].present && k.spaces == m.spaces + {v} &&
    k.table == m.table[v := KernelMapping(k.table[v].frame)] && FreeFrame(m, k.table[v].frame) &&
    SameSpaces(m, k) &&
    (forall p :: 0 <= p < KERNEL_PAGE ==> k.Lookup(v, p) == MovedEntry(m.table, base, i, p)) &&
    TablesTaken(m, k, v, TablesFor(i))
  }

  /** Exactly the first `count` page tables of `v` exist; with its directory they account for the frames taken since `m`. */
  ghost predicate TablesTaken(m: Machine, k: Machine, v: nat, count: nat)
    requires k.Shape() && v < PAGES
  {
    (forall j :: 0 <= j < KERNEL_PDE ==> (k.Pde(v, j).present <==> j < count)) &&
    (forall j :: 0 <= j < KERNEL_PDE && j < count ==> k.Pde(v, j) == TableEntry(k.Pde(v, j).frame) && FreeFrame(m, k.Pde(v, j).frame)) &&
    (forall f :: f in m.taken ==> f in k.taken) &&
    (forall f :: f in k.taken ==>
      f in m.taken || f == k.table[v].frame || exists j :: 0 <= j < KERNEL_PDE && j < count && k.Pde(v, j).frame == f)
  }

  lemma BuildingStarts(m: Machine, v: nat, f: Frame, base: nat)
    requires m.Structure() && KERNEL_PAGE < v < PAGES && !m.table[v].present && FreeFrame(m, f) && base <= PAGES
    ensures Building(m, WithSpace(m, v, f), v, base, 0)
    ensures FreeFrames(WithSpace(m, v, f)) == FreeFrames(m) - {f}
  {
    SpaceAdded(m, v, f);
  }

  /** The next page moves into an existing table, or into the next one. */
  lemma TablesTakenNext(m: Machine, k: Machine, n: Machine, v: nat, i: nat, e: Entry)
    requires k.Structure() && v in k.spaces && USER_PAGE + i < KERNEL_PAGE && TablesTaken(m, k, v, TablesFor(i))
    requires m.dead == k.dead && m.len == k.len
    requires EntrySet(k, n, v, USER_PAGE + i, e)
    ensures TablesTaken(m, n, v, TablesFor(i + 1))
    ensures TablesFor(i) <= TablesFor(i + 1) <= TablesFor(i) + 1
    ensures |FreeFrames(n)| >= |FreeFrames(k)| - (TablesFor(i + 1) - TablesFor(i))
  {
    var j := (USER_PAGE + i) / ENTRIES;
    hide Machine.Structure, Machine.Lookup, Machine.Pde;
    assert TablesFor(i + 1) == j + 1;
    assert TablesFor(i) == j || TablesFor(i) == j + 1;
    if TablesFor(i) == j + 1 {
      assert FreeFrames(n) == FreeFrames(k);
    } else {
      var f := n.Pde(v, j).frame;
      assert FreeFrames(n) == FreeFrames(k) - {f};
    }
  }

  lemma BuildingNext(m: Machine, k: Machine, n: Machine, v: nat, base: nat, i: nat)
    requires Building(m, k, v, base, i) && base + i < PAGES && USER_PAGE + i < KERNEL_PAGE
    requires EntrySet(k, n, v, USER_PAGE + i, m.table[base + i].(writable := true, user := true))
    ensures Building(m, n, v, base, i + 1)
    ensures TablesFor(i) <= TablesFor(i + 1) <= TablesFor(i) + 1
    ensures |FreeFrames(n)| >= |FreeFrames(k)| - (TablesFor(i + 1) - TablesFor(i))
  {
    TablesTakenNext(m, k, n, v, i, m.table[base + i].(writable := true, user := true));
    hide Machine.Structure, Machine.Lookup, Machine.Pde, TablesTaken;
    forall s, p | s in m.spaces && 0 <= p < KERNEL_PAGE
      ensures n.Lookup(s, p) == m.Lookup(s, p)
    {
      assert s != v;
    }
    forall s, j | s in m.spaces && 0 <= j < KERNEL_PDE
      ensures n.Pde(s, j) == m.Pde(s, j)
    {
      assert s != v;
    }
  }

  /** Copying kernel-half directory entries leaves the user half as it was. */
  lemma BuildingKernelHalf(m: Machine, k: Machine, v: nat, base: nat, count: nat, j: nat, e: Entry)
    requires Building(m, k, v, base, count) && KERNEL_PDE <= j < ENTRIES
    ensures Building(m, WithKernelPde(k, v, j, e), v, base, count)
    ensures forall i :: 0 <= i < ENTRIES ==> WithKernelPde(k, v, j, e).Pde(v, i) == if i == j then e else k.Pde(v, i)
  {
    KernelPdeWritten(k, v, j, e);
    hide Machine.Structure, Machine.Lookup, Machine.Pde;
  }

  /** The image's kernel pages `base .. base + i` have been unmapped. */
  ghost predicate Unmapping(k: Machine, n: Machine, base: nat, i: nat) {
    k.Structure() && n.Structure() && base + i <= PAGES && n == k.(table := n.table) &&
    (forall p :: 0 <= p < PAGES ==> n.table[p] == if base <= p < base + i then ZERO else k.table[p]) &&
    SameSpaces(k, n) && (forall s, j :: s in k.spaces && 0 <= j < ENTRIES ==> n.Pde(s, j) == k.Pde(s, j))
  }

  lemma UnmappingNext(k: Machine, n: Machine, base: nat, i: nat)
    requires Unmapping(k, n, base, i) && base + i < PAGES && base + i !in k.spaces
    ensures Unmapping(k, n.(table := n.table[base + i := ZERO]), base, i + 1)
  {
    KernelPageWritten(n, base + i, ZERO, n.taken);
    assert n.(table := n.table[base + i := ZERO]) == n.(table := n.table[base + i := ZERO], taken := n.taken);
    hide Machine.Structure, Machine.Lookup, Machine.Pde;
  }

  /** Once the image is unmapped from the kernel, it has been handed over. */
  lemma BuildingEnds(m: Machine, k: Machine, n: Machine, v: nat, base: nat, count: nat)
    requires Building(m, k, v, base, count) && Unmapping(k, n, base, count)
    requires !(base <= v < base + count)
    ensures Transferred(m, n, v, base, count)
  {
    assert m.Shape() && k.Shape() && n.Shape();
    assert v in k.spaces;
    hide Machine.Structure, Machine.Lookup, Machine.Pde, Machine.Shape;
    forall f | f in n.taken
      ensures f in m.taken || f == n.table[v].frame || exists i :: 0 <= i < KERNEL_PDE && Holds(n, Table(v, i), f)
    {
      if f !in m.taken && f != k.table[v].frame {
        var j :| 0 <= j < KERNEL_PDE && j < TablesFor(count) && k.Pde(v, j).frame == f;
        assert n.Pde(v, j) == k.Pde(v, j);
        assert Holds(n, Table(v, j), f);
      }
    }
  }

  // ----- Stacks

  /** The first page of `lo ..` under directory entry `i`. */
  function FirstPage(lo: nat, i: nat): nat {
    if i * ENTRIES < lo then lo else i * ENTRIES
  }

  /** User-half directory entries under pages `lo .. hi` that have no page table yet. */
  ghost function Missing(m: Machine, s: nat, lo: nat, hi: nat): set<nat>
    requires m.Shape() && s < PAGES
  {
    set i: nat | i < KERNEL_PDE && lo / ENTRIES <= i && FirstPage(lo, i) < hi && !m.Pde(s, i).present
  }

  /** Frames that mapping `lo ..` takes before it first needs the table of entry `i`. */
  ghost function FramesBefore(m: Machine, s: nat, lo: nat, i: nat): nat
    requires m.Shape() && s < PAGES
  {
    FirstPage(lo, i) - lo + |Missing(m, s, lo, FirstPage(lo, i))|
  }

  /** No page of `lo .. hi` whose table is missing is reached with exactly one free frame left, which the page itself would take. */
  ghost predicate RoomForTables(m: Machine, s: nat, lo: nat, hi: nat)
    requires m.Shape() && s < PAGES
  {
    forall i :: i in Missing(m, s, lo, hi) ==> |FreeFrames(m)| != FramesBefore(m, s, lo, i) + 1
  }

  ghost predicate UserPagesFree(m: Machine, s: nat, lo: nat, hi: nat)
    requires m.Shape() && s < PAGES && hi <= PAGES
  {
    forall p :: lo <= p < hi ==> !m.Lookup(s, p).present
  }

  /** What a user page of a stack holds: a writable, user-accessible mapping of a frame that was free in `m`. */
  ghost predicate StackEntry(m: Machine, e: Entry) {
    e == Mapping(e.frame, true, true, true) && FreeFrame(m, e.frame)
  }

  /** Pages `lo .. hi` of space `s` have been mapped since `m`; every other user page is as it was. */
  ghost predicate StackMapped(m: Machine, k: Machine, s: nat, lo: nat, hi: nat) {
    m.Structure() && k.Structure() && k.table == m.table && k.spaces == m.spaces && k.dead == m.dead && k.len == m.len &&
    s in m.spaces && lo <= hi <= KERNEL_PAGE && (forall f :: f in m.taken ==> f in k.taken) &&
    (forall t, q :: t in m.spaces && 0 <= q < KERNEL_PAGE && (t != s || !(lo <= q < hi)) ==> k.Lookup(t, q) == m.Lookup(t, q)) &&
    (forall q :: lo <= q < hi ==> StackEntry(m, k.Lookup(s, q)))
  }

  lemma StackMappedNext(m: Machine, k: Machine, n: Machine, s: nat, lo: nat, p: nat, e: Entry)
    requires StackMapped(m, k, s, lo, p) && p < KERNEL_PAGE && UserMapped(k, n, s, p, e) && e == Mapping(e.frame, true, true, true)
    ensures StackMapped(m, n, s, lo, p + 1)
  {
    MoreTaken(k, e.frame);
    assert m.Shape() && k.Shape() && n.Structure();
    hide Machine.Structure, Machine.Lookup, Machine.Pde;
  }

  /** Mapping page `p` supplies the table it needed, and no other. */
  lemma MissingNext(k: Machine, n: Machine, s: nat, p: nat, hi: nat, e: Entry)
    requires k.Structure() && UserMapped(k, n, s, p, e) && p < hi
    ensures n.Shape() && Missing(n, s, p + 1, hi) == Missing(k, s, p, hi) - {p / ENTRIES}
    ensures p / ENTRIES in Missing(k, s, p, hi) <==> !k.Pde(s, p / ENTRIES).present
  {
    MoreTaken(k, e.frame);
    assert k.Shape() && n.Shape() && k.(taken := k.taken + {e.frame}).Shape();
    hide Machine.Structure, Machine.Lookup, Machine.Pde;
    forall i: nat | i < KERNEL_PDE && i != p / ENTRIES
      ensures n.Pde(s, i) == k.Pde(s, i) && (i >= p / ENTRIES ==> FirstPage(p + 1, i) == FirstPage(p, i))
    {
    }
  }

  /** It takes the page's frame and, when the table was missing, one more. */
  lemma FreeFramesNext(k: Machine, n: Machine, s: nat, p: nat, e: Entry)
    requires k.Structure() && UserMapped(k, n, s, p, e)
    ensures |FreeFrames(n)| + 1 + (if k.Pde(s, p / ENTRIES).present then 0 else 1) == |FreeFrames(k)|
  {
    MoreTaken(k, e.frame);
    assert k.Shape() && n.Shape() && k.(taken := k.taken + {e.frame}).Shape();
    hide Machine.Structure, Machine.Lookup, Machine.Pde;
    if k.Pde(s, p / ENTRIES).present {
      assert FreeFrames(n) == FreeFrames(k) - {e.frame};
    } else {
      assert FreeFrames(n) == FreeFrames(k) - {e.frame} - {n.Pde(s, p / ENTRIES).frame};
    }
  }

  /** What is still to be taken before a later table shrinks by what was taken. */
  lemma FramesBeforeNext(k: Machine, n: Machine, s: nat, p: nat, hi: nat, e: Entry, i: nat)
    requires k.Structure() && UserMapped(k, n, s, p, e) && p < hi && n.Shape() && i in Missing(n, s, p + 1, hi)
    ensures FramesBefore(n, s, p + 1, i) + 1 + (if k.Pde(s, p / ENTRIES).present then 0 else 1) == FramesBefore(k, s, p, i)
  {
    MissingNext(k, n, s, p, hi, e);
    assert FirstPage(p, i) == FirstPage(p + 1, i) == i * ENTRIES > p;
    MissingNext(k, n, s, p, i * ENTRIES, e);
    hide Machine.Structure, UserMapped, Missing, Machine.Pde;
  }

  /** Once page `p` is mapped, the frames suffice for the rest exactly when they sufficed before. */
  lemma TableRoomNext(k: Machine, n: Machine, s: nat, p: nat, hi: nat, e: Entry)
    requires k.Structure() && UserMapped(k, n, s, p, e) && p < hi
    ensures n.Shape() && (RoomForTables(n, s, p + 1, hi) <==> RoomForTables(k, s, p, hi))
  {
    MissingNext(k, n, s, p, hi, e);
    FreeFramesNext(k, n, s, p, e);
    NothingBefore(k, s, p);
    if !k.Pde(s, p / ENTRIES).present {
      TwoFramesTaken(k, n, s, p, e);
    }
    forall i | i in Missing(n, s, p + 1, hi)
      ensures |FreeFrames(n)| != FramesBefore(n, s, p + 1, i) + 1 <==> |FreeFrames(k)| != FramesBefore(k, s, p, i) + 1
    {
      FramesBeforeNext(k, n, s, p, hi, e, i);
    }
    assert k.Shape();
    hide Machine.Structure, UserMapped, Missing, FreeFrames, Machine.Pde, FramesBefore;
  }

  lemma NothingBefore(k: Machine, s: nat, p: nat)
    requires k.Shape() && s < PAGES
    ensures FramesBefore(k, s, p, p / ENTRIES) == 0
  {
    assert Missing(k, s, p, p) == {};
  }

  lemma TwoFramesTaken(k: Machine, n: Machine, s: nat, p: nat, e: Entry)
    requires k.Structure() && UserMapped(k, n, s, p, e) && !k.Pde(s, p / ENTRIES).present
    ensures |FreeFrames(k)| >= 2
  {
    FreeFramesNext(k, n, s, p, e);
  }

  /** When the page's own frame is the last one and its table is missing, the frames do not suffice. */
  lemma LastFrameNoTable(k: Machine, s: nat, p: nat, hi: nat, f: nat)
    requires k.Shape() && s < PAGES && p < hi && p < KERNEL_PAGE && FreeFrame(k, f) && !k.Pde(s, p / ENTRIES).present
    requires OutOfFrames(k.(taken := k.taken + {f}))
    ensures !RoomForTables(k, s, p, hi)
  {
    hide Machine.Shape, Machine.Pde;
    assert FreeFrames(k) == {f};
    NothingBefore(k, s, p);
    assert p / ENTRIES in Missing(k, s, p, hi);
  }

  /** For a stack under a single table, such as the one every process gets: the frames suffice exactly when the table is there or
      the number of free frames is not one. */
  lemma RoomUnderOneTable(m: Machine, s: nat, lo: nat, hi: nat)
    requires m.Shape() && s < PAGES && lo < hi <= KERNEL_PAGE && lo / ENTRIES == (hi - 1) / ENTRIES
    ensures RoomForTables(m, s, lo, hi) <==> m.Pde(s, lo / ENTRIES).present || |FreeFrames(m)| != 1
  {
    hide Machine.Shape, Machine.Pde, FreeFrames;
    NothingBefore(m, s, lo);
    hide FramesBefore;
    assert forall i :: i in Missing(m, s, lo, hi) ==> i == lo / ENTRIES;
    assert lo / ENTRIES in Missing(m, s, lo, hi) <==> !m.Pde(s, lo / ENTRIES).present;
  }

  /** With no page left, or no frame left, nothing can go wrong any more. */
  lemma RoomAtEnd(k: Machine, s: nat, p: nat, hi: nat)
    requires k.Shape() && s < PAGES && (p == hi || OutOfFrames(k))
    ensures RoomForTables(k, s, p, hi)
  {
    if p == hi {
      assert Missing(k, s, p, hi) == {};
    } else {
      assert FreeFrames(k) == {};
    }
  }
}
