/**
Page tables as values: the kernel's flat table, the physical frames that hold directories and page tables
of processes, the frames marked in the bitmap, and the flat view of each address space.
*/
module PageTables {
  const PAGES: nat := 0x10_0000
  const ENTRIES: nat := 1024
  /** `KERNEL_STATIC_MEM_START >> 12`. */
  const KERNEL_PAGE: nat := 0xC0000
  /** `KERNEL_STATIC_MEM_START >> 22`: directory entries from here on belong to the kernel half. */
  const KERNEL_PDE: nat := 768
  /** `USER_PROCESS_BASE >> 12`. */
  const USER_PAGE: nat := 0x100

  type Frame = f: nat | f < 0x10_0000

  /** A page directory or page table entry; the two formats place the same fields in the same bits. */
  datatype Entry = Entry(present: bool, writable: bool, user: bool, writeThrough: bool, cacheDisable: bool,
                         touched: bool, large: bool, frame: Frame)

  const ZERO: Entry := Entry(false, false, false, false, false, false, false, 0)

  /** The entry `MapFrame` builds. */
  function Mapping(frame: Frame, writable: bool, cached: bool, user: bool): Entry {
    Entry(true, writable, user, false, !cached, false, false, frame)
  }

  /** The entry for a frame handed to the kernel, and for its temporary windows onto page tables. */
  function KernelMapping(frame: Frame): Entry {
    Mapping(frame, true, true, false)
  }

  /** The directory entry `CreatePageTable` writes. */
  function TableEntry(frame: Frame): Entry {
    ZERO.(writable := true, user := true, frame := frame, present := true)
  }

  function ZeroPage(): (s: seq<Entry>)
    ensures |s| == ENTRIES && forall i :: 0 <= i < ENTRIES ==> s[i] == ZERO
  {
    seq(ENTRIES, _ => ZERO)
  }

  /** `table` is the kernel's flat table; `spaces` are the kernel pages at which process directories are mapped;
      frames `dead .. len` are under the bitmap, and `taken` of them are marked. */
  datatype Machine = Machine(table: seq<Entry>, phys: seq<seq<Entry>>, taken: set<nat>, spaces: set<nat>, dead: nat, len: nat) {

    ghost predicate Shape() {
      |table| == PAGES && |phys| == PAGES && (forall f :: 0 <= f < PAGES ==> |phys[f]| == ENTRIES) &&
      0 < dead <= len <= PAGES &&
      (forall f :: f in taken ==> dead <= f < len) &&
      (forall s :: s in spaces ==> KERNEL_PAGE < s < PAGES && table[s].present && table[s].frame in taken)
    }

    /** Entry `i` of the directory mapped at kernel page `s`. */
    function Pde(s: nat, i: nat): Entry
      requires Shape() && s < PAGES && i < ENTRIES
    {
      phys[table[s].frame][i]
    }

    /** The flat view: what a two-level walk from the directory at `s` finds for page `p`. */
    function Lookup(s: nat, p: nat): Entry
      requires Shape() && s < PAGES && p < PAGES
    {
      var e := Pde(s, p / ENTRIES);
      if e.present then phys[e.frame][p % ENTRIES] else ZERO
    }

    /** Directory `s` has a page table for user-half entry `i`. */
    ghost predicate HasTable(s: nat, i: nat)
      requires Shape()
    {
      s in spaces && i < KERNEL_PDE && Pde(s, i).present
    }

    /** Directories and page tables of processes sit in marked frames, all of them different. */
    ghost predicate Structure() {
      Shape() &&
      (forall s, i :: HasTable(s, i) ==> Pde(s, i).frame in taken) &&
      (forall s, t :: s in spaces && t in spaces && s != t ==> table[s].frame != table[t].frame) &&
      (forall s, t, i :: s in spaces && HasTable(t, i) ==> table[s].frame != Pde(t, i).frame) &&
      (forall s, i, t, j :: HasTable(s, i) && HasTable(t, j) && (s, i) != (t, j) ==> Pde(s, i).frame != Pde(t, j).frame)
    }
  }

  /** Every user-half page of every space in `m` looks the same in `n`, tables included. */
  ghost predicate SameSpaces(m: Machine, n: Machine)
    requires m.Shape() && n.Shape()
  {
    (forall s, p :: s in m.spaces && 0 <= p < KERNEL_PAGE ==> n.Lookup(s, p) == m.Lookup(s, p)) &&
    (forall s, i :: s in m.spaces && 0 <= i < KERNEL_PDE ==> n.Pde(s, i) == m.Pde(s, i))
  }

  /** A machine whose directories read the same in the user half is in order if the other was. */
  lemma SameDirectories(m: Machine, n: Machine)
    requires m.Structure() && n.Shape() && n.spaces == m.spaces
    requires forall t :: t in m.spaces ==> n.table[t] == m.table[t]
    requires forall t, j :: t in m.spaces && 0 <= j < KERNEL_PDE ==> n.Pde(t, j) == m.Pde(t, j)
    requires forall t, j :: m.HasTable(t, j) ==> m.Pde(t, j).frame in n.taken
    ensures n.Structure()
  {
    forall t, j
      ensures n.HasTable(t, j) == m.HasTable(t, j) && (n.HasTable(t, j) ==> n.Pde(t, j) == m.Pde(t, j))
    {
    }
    hide Machine.Pde, Machine.HasTable, Machine.Shape;
  }

  // ----- Writing one entry of an existing page table

  function WithEntry(m: Machine, s: nat, p: nat, e: Entry): Machine
    requires m.Shape() && s < PAGES && p < PAGES && m.Pde(s, p / ENTRIES).present
  {
    var f := m.Pde(s, p / ENTRIES).frame;
    m.(phys := m.phys[f := m.phys[f][p % ENTRIES := e]])
  }

  /** A store into one page table is seen by exactly one page of exactly one space. */
  lemma EntryWritten(m: Machine, s: nat, p: nat, e: Entry)
    requires m.Structure() && p < KERNEL_PAGE && m.HasTable(s, p / ENTRIES)
    ensures var n := WithEntry(m, s, p, e);
      && n.Structure()
      && (forall t, q :: t in m.spaces && 0 <= q < KERNEL_PAGE ==> n.Lookup(t, q) == if t == s && q == p then e else m.Lookup(t, q))
      && (forall t, i :: t in m.spaces && 0 <= i < ENTRIES ==> n.Pde(t, i) == m.Pde(t, i))
  {
    var n := WithEntry(m, s, p, e);
    assert n.Shape();
    forall t, i | t in m.spaces && 0 <= i < ENTRIES
      ensures n.Pde(t, i) == m.Pde(t, i)
    {
    }
    SameDirectories(m, n);
    forall t, q | t in m.spaces && 0 <= q < KERNEL_PAGE
      ensures n.Lookup(t, q) == if t == s && q == p then e else m.Lookup(t, q)
    {
      if m.Pde(t, q / ENTRIES).present && (t, q / ENTRIES) != (s, p / ENTRIES) {
        assert m.HasTable(t, q / ENTRIES);
      }
    }
  }

  // ----- Creating a page table

  /** Frame 0 stands for no frame: a table made when memory has run out is put there. */
  function WithTable(m: Machine, s: nat, i: nat, f: Frame): Machine
    requires m.Shape() && s < PAGES && i < ENTRIES
  {
    var d := m.table[s].frame;
    var cleared := m.phys[f := ZeroPage()];
    m.(phys := cleared[d := cleared[d][i := TableEntry(f)]], taken := if f == 0 then m.taken else m.taken + {f})
  }

  ghost predicate FreeFrame(m: Machine, f: nat) {
    m.dead <= f < m.len && f !in m.taken
  }

  lemma NewTableStructure(m: Machine, n: Machine, s: nat, i: nat, f: Frame)
    requires m.Structure() && n.Shape() && n.spaces == m.spaces && n.table == m.table && f !in m.taken && n.taken == m.taken + {f}
    requires s in m.spaces && i < KERNEL_PDE
    requires forall t, j :: t in m.spaces && 0 <= j < ENTRIES ==> n.Pde(t, j) == if t == s && j == i then TableEntry(f) else m.Pde(t, j)
    ensures n.Structure() && n.HasTable(s, i)
  {
    forall t, j | n.HasTable(t, j)
      ensures if t == s && j == i then n.Pde(t, j).frame == f else m.HasTable(t, j) && n.Pde(t, j) == m.Pde(t, j)
    {
    }
    assert n.HasTable(s, i);
    assert forall t :: t in m.spaces ==> m.table[t].frame in m.taken;
    hide Machine.Pde, Machine.HasTable, Machine.Shape;
  }

  /** A fresh page table changes no lookup: its pages were unmapped before and are unmapped still. */
  lemma TableCreated(m: Machine, s: nat, i: nat, f: Frame)
    requires m.Structure() && s in m.spaces && i < KERNEL_PDE && !m.Pde(s, i).present && FreeFrame(m, f)
    ensures var n := WithTable(m, s, i, f);
      && n.Structure() && n.HasTable(s, i)
      && (forall t, q :: t in m.spaces && 0 <= q < KERNEL_PAGE ==> n.Lookup(t, q) == m.Lookup(t, q))
      && (forall t, j :: t in m.spaces && 0 <= j < ENTRIES ==> n.Pde(t, j) == if t == s && j == i then TableEntry(f) else m.Pde(t, j))
  {
    var n := WithTable(m, s, i, f);
    assert n.Shape();
    forall t, j | t in m.spaces && 0 <= j < ENTRIES
      ensures n.Pde(t, j) == if t == s && j == i then TableEntry(f) else m.Pde(t, j)
    {
    }
    NewTableStructure(m, n, s, i, f);
    forall t, q | t in m.spaces && 0 <= q < KERNEL_PAGE
      ensures n.Lookup(t, q) == m.Lookup(t, q)
    {
      if m.Pde(t, q / ENTRIES).present {
        assert m.HasTable(t, q / ENTRIES);
      }
    }
  }

  /** A page table in frame 0 is one that nobody owns: the tables are then no longer in order. */
  lemma TableInFrameZero(m: Machine, s: nat, p: nat, e: Entry)
    requires m.Structure() && s in m.spaces && p < KERNEL_PAGE && !m.Pde(s, p / ENTRIES).present
    ensures var k := WithTable(m, s, p / ENTRIES, 0);
      && k.Shape() && k.Pde(s, p / ENTRIES) == TableEntry(0)
      && WithEntry(k, s, p, e).Shape() && !WithEntry(k, s, p, e).Structure()
  {
    var k := WithTable(m, s, p / ENTRIES, 0);
    assert k.Shape() && k.Pde(s, p / ENTRIES) == TableEntry(0);
    var n := WithEntry(k, s, p, e);
    assert n.Shape() && n.Pde(s, p / ENTRIES) == TableEntry(0);
    assert n.HasTable(s, p / ENTRIES);
  }

  // ----- Setting one page of one space

  /** The page table for page `p` of space `s` is there, or a frame for it is. */
  ghost predicate TableAtHand(m: Machine, s: nat, p: nat)
    requires m.Shape() && s < PAGES && p < PAGES
  {
    m.Pde(s, p / ENTRIES).present || exists g :: FreeFrame(m, g)
  }

  /** `n` is `m` with page `p` of space `s` set to `e` in the flat view: that page reads back `e`; every other user page
      of every space and the kernel's table are as before; at most one free frame became a page table. */
  ghost predicate EntrySet(m: Machine, n: Machine, s: nat, p: nat, e: Entry) {
    m.Structure() && n.Structure() && s in m.spaces && p < KERNEL_PAGE &&
    n.table == m.table && n.spaces == m.spaces && n.dead == m.dead && n.len == m.len &&
    (forall t, q :: t in m.spaces && 0 <= q < KERNEL_PAGE ==> n.Lookup(t, q) == if t == s && q == p then e else m.Lookup(t, q)) &&
    (forall t, j :: t in m.spaces && 0 <= j < ENTRIES && (t != s || j != p / ENTRIES) ==> n.Pde(t, j) == m.Pde(t, j)) &&
    n.Pde(s, p / ENTRIES).present &&
    if m.Pde(s, p / ENTRIES).present then n.taken == m.taken && n.Pde(s, p / ENTRIES) == m.Pde(s, p / ENTRIES)
    else
      var t := n.Pde(s, p / ENTRIES);
      t == TableEntry(t.frame) && FreeFrame(m, t.frame) && n.taken == m.taken + {t.frame}
  }

  lemma SetInExistingTable(m: Machine, s: nat, p: nat, e: Entry)
    requires m.Structure() && s in m.spaces && p < KERNEL_PAGE && m.Pde(s, p / ENTRIES).present
    ensures m.HasTable(s, p / ENTRIES) && WithEntry(m, s, p, e).Structure()
    ensures EntrySet(m, WithEntry(m, s, p, e), s, p, e)
  {
    EntryWritten(m, s, p, e);
  }

  lemma SetInNewTable(m: Machine, s: nat, p: nat, f: Frame, e: Entry)
    requires m.Structure() && s in m.spaces && p < KERNEL_PAGE && !m.Pde(s, p / ENTRIES).present && FreeFrame(m, f)
    ensures WithTable(m, s, p / ENTRIES, f).Structure() && WithTable(m, s, p / ENTRIES, f).HasTable(s, p / ENTRIES)
    ensures WithEntry(WithTable(m, s, p / ENTRIES, f), s, p, e).Structure()
    ensures EntrySet(m, WithEntry(WithTable(m, s, p / ENTRIES, f), s, p, e), s, p, e)
  {
    var k := WithTable(m, s, p / ENTRIES, f);
    TableCreated(m, s, p / ENTRIES, f);
    EntryWritten(k, s, p, e);
    hide Machine.Structure, Machine.Lookup, Machine.Pde;
  }

  // ----- Kernel pages

  /** A store into the kernel's flat table at a page that holds no directory is invisible to every process. */
  lemma KernelPageWritten(m: Machine, p: nat, e: Entry, taken: set<nat>)
    requires m.Structure() && p < PAGES && p !in m.spaces
    requires forall f :: f in taken ==> m.dead <= f < m.len
    requires forall s :: s in m.spaces ==> m.table[s].frame in taken
    requires forall s, i :: m.HasTable(s, i) ==> m.Pde(s, i).frame in taken
    ensures var n := m.(table := m.table[p := e], taken := taken);
      n.Structure() && SameSpaces(m, n) && forall t, j :: t in m.spaces && 0 <= j < ENTRIES ==> n.Pde(t, j) == m.Pde(t, j)
  {
    var n := m.(table := m.table[p := e], taken := taken);
    assert n.Shape();
    forall t, j | t in m.spaces && 0 <= j < ENTRIES
      ensures n.Pde(t, j) == m.Pde(t, j)
    {
    }
    SameDirectories(m, n);
    hide Machine.Structure;
  }

  /** A new directory, zeroed, mapped at the unmapped kernel page `v`. */
  function WithSpace(m: Machine, v: nat, f: Frame): Machine
    requires m.Shape() && v < PAGES
  {
    m.(table := m.table[v := KernelMapping(f)], phys := m.phys[f := ZeroPage()], taken := m.taken + {f}, spaces := m.spaces + {v})
  }

  lemma NewSpacePdes(m: Machine, v: nat, f: Frame)
    requires m.Structure() && KERNEL_PAGE < v < PAGES && !m.table[v].present && FreeFrame(m, f)
    ensures var n := WithSpace(m, v, f);
      && n.Shape()
      && (forall t, j :: t in m.spaces && 0 <= j < ENTRIES ==> n.Pde(t, j) == m.Pde(t, j))
      && (forall i :: 0 <= i < ENTRIES ==> n.Pde(v, i) == ZERO)
  {
  }

  lemma NewSpaceStructure(m: Machine, n: Machine, v: nat, f: Frame)
    requires m.Structure() && n.Shape() && f !in m.taken
    requires v < PAGES && v !in m.spaces && n.spaces == m.spaces + {v} && n.taken == m.taken + {f} && n.table[v].frame == f
    requires forall t :: t in m.spaces ==> n.table[t] == m.table[t]
    requires forall t, j :: t in m.spaces && 0 <= j < ENTRIES ==> n.Pde(t, j) == m.Pde(t, j)
    requires forall i :: 0 <= i < ENTRIES ==> n.Pde(v, i) == ZERO
    ensures n.Structure()
  {
    forall s, i | n.HasTable(s, i)
      ensures s != v && m.HasTable(s, i) && n.Pde(s, i) == m.Pde(s, i)
    {
      assert n.Pde(v, i) == ZERO;
    }
    hide Machine.Pde;
    assert forall s :: s in m.spaces ==> m.table[s].frame in m.taken;
  }

  /** The new space is empty and every other space is as before. */
  lemma SpaceAdded(m: Machine, v: nat, f: Frame)
    requires m.Structure() && KERNEL_PAGE < v < PAGES && !m.table[v].present && FreeFrame(m, f)
    ensures var n := WithSpace(m, v, f);
      && n.Structure() && SameSpaces(m, n)
      && (forall p :: 0 <= p < KERNEL_PAGE ==> n.Lookup(v, p) == ZERO)
      && (forall i :: 0 <= i < ENTRIES ==> n.Pde(v, i) == ZERO)
  {
    var n := WithSpace(m, v, f);
    NewSpacePdes(m, v, f);
    assert v !in m.spaces;
    NewSpaceStructure(m, n, v, f);
    hide Machine.Structure;
    forall t, q | t in m.spaces && 0 <= q < KERNEL_PAGE
      ensures n.Lookup(t, q) == m.Lookup(t, q)
    {
      TableNotFresh(m, t, q / ENTRIES, f);
    }
  }

  lemma TableNotFresh(m: Machine, t: nat, i: nat, f: Frame)
    requires m.Structure() && t in m.spaces && i < KERNEL_PDE && m.Shape() && FreeFrame(m, f)
    ensures m.Pde(t, i).present ==> m.Pde(t, i).frame != f
  {
    assert m.Pde(t, i).present ==> m.HasTable(t, i);
  }

  /** A store into the kernel half of a directory. */
  function WithKernelPde(m: Machine, s: nat, i: nat, e: Entry): Machine
    requires m.Shape() && s < PAGES && i < ENTRIES
  {
    var d := m.table[s].frame;
    m.(phys := m.phys[d := m.phys[d][i := e]])
  }

  lemma KernelPdeWritten(m: Machine, s: nat, i: nat, e: Entry)
    requires m.Structure() && s in m.spaces && KERNEL_PDE <= i < ENTRIES
    ensures var n := WithKernelPde(m, s, i, e);
      && n.Structure() && SameSpaces(m, n)
      && forall t, j :: t in m.spaces && 0 <= j < ENTRIES ==> n.Pde(t, j) == if t == s && j == i then e else m.Pde(t, j)
  {
    var n := WithKernelPde(m, s, i, e);
    assert n.Shape();
    forall t, j | t in m.spaces && 0 <= j < ENTRIES
      ensures n.Pde(t, j) == if t == s && j == i then e else m.Pde(t, j)
    {
    }
    SameDirectories(m, n);
    forall t, q | t in m.spaces && 0 <= q < KERNEL_PAGE
      ensures n.Lookup(t, q) == m.Lookup(t, q)
    {
      if m.Pde(t, q / ENTRIES).present {
        assert m.HasTable(t, q / ENTRIES);
      }
    }
  }
}
