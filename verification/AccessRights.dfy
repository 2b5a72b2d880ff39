/**
Who may reach what: the access rights along the two-level walk of the hardware (sections 4.3 and 4.6 of the Intel SDM,
volume 3A). Kernel pages are closed to processes, and a process can write every page it was given.
*/
module AccessRights {
  import opened PageTables
  import opened FrameOwnership

  /** An entry through which user-mode code may read and write. */
  predicate OpenToUsers(e: Entry) {
    e.present && e.writable && e.user
  }

  /** An entry through which only the kernel may read and write. */
  predicate KernelOnly(e: Entry) {
    e.present && e.writable && !e.user
  }

  /** Ordinary memory of the kernel: cached, written back, in 4 KB pages. */
  predicate KernelMemory(e: Entry) {
    KernelOnly(e) && !e.cacheDisable && !e.writeThrough && !e.large
  }

  // ----- The walk

  /** The directory entry the hardware reads for linear address `a` in space `s`: bits 31 to 22 select it. */
  function WalkedPde(m: Machine, s: nat, a: nat): Entry
    requires m.Shape() && s < PAGES && a < 0x1_0000_0000
  {
    m.phys[m.table[s].frame][a / 0x40_0000]
  }

  /** The page table entry behind it: bits 21 to 12 select it. */
  function WalkedPte(m: Machine, s: nat, a: nat): Entry
    requires m.Shape() && s < PAGES && a < 0x1_0000_0000
  {
    m.phys[WalkedPde(m, s, a).frame][a / 0x1000 % 0x400]
  }

  /** User-mode code of space `s` may read and write at `a`: both entries are open to it. */
  predicate UserMayWrite(m: Machine, s: nat, a: nat)
    requires m.Shape() && s < PAGES && a < 0x1_0000_0000
  {
    OpenToUsers(WalkedPde(m, s, a)) && OpenToUsers(WalkedPte(m, s, a))
  }

  /** Every address of the `n` pages from page `first` on is in the user half and writable by the process. */
  ghost predicate PagesWritable(m: Machine, s: nat, first: nat, n: nat)
    requires m.Shape() && s < PAGES
  {
    forall a: nat :: first * 0x1000 <= a < (first + n) * 0x1000 ==> a < 0xC000_0000 && UserMayWrite(m, s, a)
  }

  /** The physical address the walk ends at. */
  function PhysicalAddress(m: Machine, s: nat, a: nat): nat
    requires m.Shape() && s < PAGES && a < 0x1_0000_0000
  {
    WalkedPte(m, s, a).frame * 0x1000 + a % 0x1000
  }

  /** The physical address of a kernel address. */
  function KernelPhysicalAddress(table: seq<Entry>, a: nat): nat
    requires |table| == PAGES && a < 0x1_0000_0000
  {
    table[a / 0x1000].frame * 0x1000 + a % 0x1000
  }

  /** Address by address, from 0x100000 on, `n` pages of space `s` are the memory that kernel page `base` and those behind it were. */
  ghost predicate SameMemory(table: seq<Entry>, base: nat, m: Machine, s: nat, n: nat)
    requires |table| == PAGES && m.Shape() && s < PAGES && base + n <= PAGES
  {
    forall a: nat :: a < 0x1_0000_0000 && 0x10_0000 <= a < 0x10_0000 + n * 0x1000 ==>
      PhysicalAddress(m, s, a) == KernelPhysicalAddress(table, base * 0x1000 + (a - 0x10_0000))
  }

  lemma PageOf(a: nat)
    requires a < 0x1_0000_0000
    ensures a / 0x1000 < PAGES && a / 0x1000 / ENTRIES == a / 0x40_0000 && a / 0x1000 % ENTRIES == a / 0x1000 % 0x400
  {
  }

  /** The walk finds the entry of the flat view. */
  lemma WalkIsLookup(m: Machine, s: nat, a: nat)
    requires m.Shape() && s < PAGES && a < 0x1_0000_0000 && a / 0x1000 < PAGES
    ensures WalkedPde(m, s, a) == m.Pde(s, a / 0x1000 / ENTRIES)
    ensures WalkedPde(m, s, a).present ==> WalkedPte(m, s, a) == m.Lookup(s, a / 0x1000)
  {
    PageOf(a);
    hide Machine.Shape;
  }

  // ----- The law

  /** Every present entry has the rights of its place: kernel pages are for the kernel only, page tables and pages of processes
      are open to them. */
  ghost predicate Guarded(m: Machine) {
    m.Shape() && forall o :: Slot(m, o).present ==> if o.KernelPage? then KernelOnly(Slot(m, o)) else OpenToUsers(Slot(m, o))
  }

  lemma GuardedKernelPage(m: Machine, p: nat)
    requires Guarded(m) && p < PAGES && m.table[p].present
    ensures m.table[p].writable && !m.table[p].user
  {
    var e := Slot(m, KernelPage(p));
  }

  /** In a guarded machine a process may write exactly what is mapped in its user half. */
  lemma WritableIffMapped(m: Machine, s: nat, a: nat)
    requires Guarded(m) && s in m.spaces && s < PAGES && a < 0xC000_0000
    ensures UserMayWrite(m, s, a) <==> m.Lookup(s, a / 0x1000).present
  {
    PageOf(a);
    WalkIsLookup(m, s, a);
    assert Slot(m, UserPage(s, a / 0x1000)) == m.Lookup(s, a / 0x1000);
    assert Slot(m, Table(s, a / 0x1000 / ENTRIES)) == m.Pde(s, a / 0x1000 / ENTRIES);
  }

  lemma GuardedAfterChange(m: Machine, n: Machine, o: Owner)
    requires Guarded(m) && n.Shape() && OnlyChanged(m, n, o)
    requires Slot(n, o).present ==> if o.KernelPage? then KernelOnly(Slot(n, o)) else OpenToUsers(Slot(n, o))
    ensures Guarded(n)
  {
    hide Slot, Machine.Shape;
  }

  /** The kernel's table changed, at pages that hold no directory, to entries for the kernel only or to none. */
  lemma KernelTableGuards(m: Machine, n: Machine)
    requires Guarded(m) && n.Shape() && n == m.(table := n.table, taken := n.taken)
    requires forall s :: s in m.spaces ==> n.table[s] == m.table[s]
    requires forall p :: 0 <= p < PAGES && n.table[p] != m.table[p] && n.table[p].present ==> KernelOnly(n.table[p])
    ensures Guarded(n)
  {
    forall o: Owner
      ensures if o.KernelPage? then Slot(n, o).present && Slot(n, o) != Slot(m, o) ==> KernelOnly(Slot(n, o)) else Slot(n, o) == Slot(m, o)
    {
    }
  }

  /** A contiguous allocation: what it maps is ordinary memory for the kernel only. */
  lemma RunMappedGuards(m: Machine, n: Machine, base: nat, count: nat)
    requires Guarded(m) && RunMapped(m, n, base, count) && forall p :: base <= p < base + count ==> !m.table[p].present
    ensures Guarded(n) && forall p :: base <= p < base + count ==> KernelMemory(n.table[p])
  {
    KernelTableGuards(m, n);
  }

  /** Mapping a user page, writable and open to users. */
  lemma UserMappedGuards(m: Machine, n: Machine, s: nat, p: nat, e: Entry)
    requires Guarded(m) && m.Structure() && UserMapped(m, n, s, p, e) && OpenToUsers(e)
    ensures Guarded(n)
  {
    MoreTaken(m, e.frame);
    var i := p / ENTRIES;
    var mid := WithNeededTable(m, n, s, p);
    if !m.Pde(s, i).present {
      TableIsOneChange(m, s, i, n.Pde(s, i).frame);
      GuardedAfterChange(m, mid, Table(s, i));
    }
    OnlyTheUserPage(m, n, s, p, e);
    assert n.Shape();
    hide Machine.Structure, Slot, Machine.Shape, WithNeededTable, UserMapped;
    GuardedAfterChange(mid, n, UserPage(s, p));
  }

  /** Handing an image over. */
  lemma TransferGuards(m: Machine, n: Machine, v: nat, base: nat, count: nat)
    requires Guarded(m) && Transferred(m, n, v, base, count)
    ensures Guarded(n)
  {
    assert m.Shape() && n.Shape();
    hide Machine.Structure, Machine.Lookup, Machine.Pde;
    forall o | Slot(n, o).present
      ensures if o.KernelPage? then KernelOnly(Slot(n, o)) else OpenToUsers(Slot(n, o))
    {
      var e := Slot(m, o);
      if o.UserPage? && o.space == v && USER_PAGE <= o.page < USER_PAGE + count {
        var k := Slot(m, KernelPage(base + (o.page - USER_PAGE)));
      }
    }
  }

  /** The whole image is the process's own to write, and it is the memory the kernel had. */
  lemma ImageIsUsable(m: Machine, n: Machine, v: nat, base: nat, count: nat)
    requires Guarded(m) && Guarded(n) && Transferred(m, n, v, base, count)
    requires forall p :: base <= p < base + count ==> m.table[p].present
    ensures v < PAGES && base + count <= PAGES && PagesWritable(n, v, 0x100, count) && SameMemory(m.table, base, n, v, count)
  {
    assert v < PAGES && base + count <= PAGES && m.Shape() && n.Shape();
    hide UserMayWrite, PhysicalAddress, KernelPhysicalAddress, Guarded, Transferred, Machine.Structure, Machine.Shape;
    forall a: nat | 0x10_0000 <= a < 0x10_0000 + count * 0x1000
      ensures a < 0xC000_0000 && UserMayWrite(n, v, a)
      ensures PhysicalAddress(n, v, a) == KernelPhysicalAddress(m.table, base * 0x1000 + (a - 0x10_0000))
    {
      ImageIsHandedOver(m, n, v, base, count, a);
    }
  }

  /** Every byte of the image is the process's own to write, at the physical address the kernel had it at. */
  lemma ImageIsHandedOver(m: Machine, n: Machine, v: nat, base: nat, count: nat, a: nat)
    requires Guarded(m) && Guarded(n) && Transferred(m, n, v, base, count) && 0x10_0000 <= a < 0x10_0000 + count * 0x1000
    requires forall p :: base <= p < base + count ==> m.table[p].present
    ensures var k := base * 0x1000 + (a - 0x10_0000);
      && a < 0xC000_0000 && k < 0x1_0000_0000
      && UserMayWrite(n, v, a) && PhysicalAddress(n, v, a) == KernelPhysicalAddress(m.table, k)
  {
    var k, p := base * 0x1000 + (a - 0x10_0000), a / 0x1000;
    assert USER_PAGE <= p < USER_PAGE + count && k / 0x1000 == base + (p - USER_PAGE) && k % 0x1000 == a % 0x1000;
    assert n.Lookup(v, p) == m.table[base + (p - USER_PAGE)].(writable := true, user := true);
    WritableIffMapped(n, v, a);
    WalkIsLookup(n, v, a);
    hide Guarded, Machine.Structure, Machine.Lookup, Machine.Pde, Transferred;
  }
}
