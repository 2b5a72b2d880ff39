/**
Who holds a physical frame, and the conservation law: a frame under the bitmap is held exactly once if its
bit is set and not at all otherwise.
*/
module FrameOwnership {
  import opened PageTables

  /** A place that can hold a frame: a page of the kernel's table (process directories are mapped there too),
      a page table in the user half of a directory, or a user page of a process. */
  datatype Owner = KernelPage(page: nat) | Table(space: nat, index: nat) | UserPage(space: nat, page: nat)

  /** The entry at a place, zero where there is none. */
  ghost function Slot(m: Machine, o: Owner): Entry
    requires m.Shape()
  {
    match o
    case KernelPage(p) => if p < PAGES then m.table[p] else ZERO
    case Table(s, i) => if s in m.spaces && i < KERNEL_PDE then m.Pde(s, i) else ZERO
    case UserPage(s, p) => if s in m.spaces && p < KERNEL_PAGE then m.Lookup(s, p) else ZERO
  }

  ghost predicate Holds(m: Machine, o: Owner, f: nat)
    requires m.Shape()
  {
    Slot(m, o).present && Slot(m, o).frame == f
  }

  ghost predicate AllMarked(m: Machine)
    requires m.Shape()
  {
    forall o, f :: Holds(m, o, f) && m.dead <= f ==> f in m.taken
  }

  ghost predicate HeldOnce(m: Machine)
    requires m.Shape()
  {
    forall o, c, f :: Holds(m, o, f) && Holds(m, c, f) && m.dead <= f ==> o == c
  }

  ghost predicate NoneLost(m: Machine)
    requires m.Shape()
  {
    forall f :: f in m.taken ==> exists o :: Holds(m, o, f)
  }

  /** Conservation of frames. */
  ghost predicate Conserved(m: Machine) {
    m.Structure() && AllMarked(m) && HeldOnce(m) && NoneLost(m)
  }

  /** `n` differs from `m` at place `o` only. */
  ghost predicate OnlyChanged(m: Machine, n: Machine, o: Owner)
    requires m.Shape() && n.Shape()
  {
    n.dead == m.dead && n.len == m.len && forall c :: c != o ==> Slot(n, c) == Slot(m, c)
  }

  /** A place takes a frame that nobody held. */
  lemma GainFresh(m: Machine, n: Machine, o: Owner, f: nat)
    requires Conserved(m) && n.Structure() && OnlyChanged(m, n, o)
    requires !Slot(m, o).present && Holds(n, o, f) && FreeFrame(m, f) && n.taken == m.taken + {f}
    ensures Conserved(n)
  {
    assert m.Shape() && n.Shape();
    hide Slot, Machine.Structure;
    forall c, g | Holds(n, c, g)
      ensures (c == o && g == f) || (c != o && Holds(m, c, g))
    {
    }
    forall g | g in n.taken
      ensures exists c :: Holds(n, c, g)
    {
      if g != f {
        var c :| Holds(m, c, g);
        assert Holds(n, c, g);
      }
    }
  }

  /** A place takes a frame below the dead zone, which nobody accounts for. */
  lemma GainStatic(m: Machine, n: Machine, o: Owner, f: nat)
    requires Conserved(m) && n.Structure() && OnlyChanged(m, n, o)
    requires !Slot(m, o).present && Holds(n, o, f) && f < m.dead && n.taken == m.taken
    ensures Conserved(n)
  {
    assert m.Shape() && n.Shape();
    hide Slot, Machine.Structure;
    forall c, g | Holds(n, c, g)
      ensures (c == o && g == f) || (c != o && Holds(m, c, g))
    {
    }
    forall g | g in n.taken
      ensures exists c :: Holds(n, c, g)
    {
      var c :| Holds(m, c, g);
      assert Holds(n, c, g);
    }
  }

  /** A place gives its frame up; a frame under the bitmap becomes free. */
  lemma GiveUp(m: Machine, n: Machine, o: Owner, f: nat)
    requires Conserved(m) && n.Structure() && OnlyChanged(m, n, o)
    requires Holds(m, o, f) && !Slot(n, o).present && n.taken == m.taken - {f}
    ensures Conserved(n)
  {
    assert m.Shape() && n.Shape();
    hide Slot, Machine.Structure;
    forall c, g | Holds(n, c, g)
      ensures c != o && Holds(m, c, g)
    {
    }
    forall g | g in n.taken
      ensures exists c :: Holds(n, c, g)
    {
      var c :| Holds(m, c, g);
      assert Holds(n, c, g);
    }
  }

  /** A store into the kernel's table at a page that holds no directory changes that one place. */
  lemma KernelStoreIsOneChange(m: Machine, p: nat, e: Entry, taken: set<nat>)
    requires m.Structure() && p < PAGES && p !in m.spaces
    requires forall f :: f in taken ==> m.dead <= f < m.len
    requires forall s :: s in m.spaces ==> m.table[s].frame in taken
    requires forall s, i :: m.HasTable(s, i) ==> m.Pde(s, i).frame in taken
    ensures var n := m.(table := m.table[p := e], taken := taken);
      n.Structure() && OnlyChanged(m, n, KernelPage(p)) && Slot(n, KernelPage(p)) == e
  {
    KernelPageWritten(m, p, e, taken);
    hide Machine.Lookup, Machine.Pde, Machine.Structure;
    var n := m.(table := m.table[p := e], taken := taken);
    forall c | c != KernelPage(p)
      ensures Slot(n, c) == Slot(m, c)
    {
    }
  }

  /** Mapping a free frame at an unmapped kernel page. */
  lemma MapFreshConserves(m: Machine, p: nat, e: Entry)
    requires Conserved(m) && p < PAGES && !m.table[p].present && e.present && FreeFrame(m, e.frame)
    ensures Conserved(m.(table := m.table[p := e], taken := m.taken + {e.frame}))
  {
    KernelStoreIsOneChange(m, p, e, m.taken + {e.frame});
    GainFresh(m, m.(table := m.table[p := e], taken := m.taken + {e.frame}), KernelPage(p), e.frame);
  }

  /** Mapping a frame below the dead zone, such as frame 0 when memory has run out. */
  lemma MapStaticConserves(m: Machine, p: nat, e: Entry)
    requires Conserved(m) && p < PAGES && !m.table[p].present && e.present && e.frame < m.dead
    ensures Conserved(m.(table := m.table[p := e]))
  {
    KernelStoreIsOneChange(m, p, e, m.taken);
    assert m.(table := m.table[p := e]) == m.(table := m.table[p := e], taken := m.taken);
    GainStatic(m, m.(table := m.table[p := e]), KernelPage(p), e.frame);
  }

  /** Unmapping a kernel page and freeing its frame. */
  lemma UnmapConserves(m: Machine, p: nat)
    requires Conserved(m) && p < PAGES && p !in m.spaces && m.table[p].present
    ensures Conserved(m.(table := m.table[p := ZERO], taken := m.taken - {m.table[p].frame}))
  {
    var f := m.table[p].frame;
    assert Holds(m, KernelPage(p), f);
    forall s | s in m.spaces
      ensures m.table[s].frame in m.taken - {f}
    {
      assert Holds(m, KernelPage(s), m.table[s].frame);
    }
    forall s, i | m.HasTable(s, i)
      ensures m.Pde(s, i).frame in m.taken - {f}
    {
      assert Holds(m, Table(s, i), m.Pde(s, i).frame);
    }
    KernelStoreIsOneChange(m, p, ZERO, m.taken - {f});
    GiveUp(m, m.(table := m.table[p := ZERO], taken := m.taken - {f}), KernelPage(p), f);
  }

  // ----- Contiguous allocation in the kernel directory

  ghost predicate OutOfFrames(m: Machine) {
    forall f :: m.dead <= f < m.len ==> f in m.taken
  }

  /** `n` is `m` after the kernel pages `base .. base + count` were mapped, each to a frame that was free or, once
      memory has run out, to frame 0. */
  ghost predicate RunMapped(m: Machine, n: Machine, base: nat, count: nat) {
    m.Shape() && n.Shape() && base + count <= PAGES &&
    n == m.(table := n.table, taken := n.taken) &&
    (forall p :: 0 <= p < PAGES && !(base <= p < base + count) ==> n.table[p] == m.table[p]) &&
    (forall p :: base <= p < base + count ==> n.table[p] == KernelMapping(n.table[p].frame)) &&
    (forall p :: base <= p < base + count && n.table[p].frame != 0 ==> FreeFrame(m, n.table[p].frame) && n.table[p].frame in n.taken) &&
    (forall p :: base <= p < base + count && n.table[p].frame == 0 ==> OutOfFrames(n)) &&
    (forall f :: f in m.taken ==> f in n.taken) &&
    (forall f :: f in n.taken ==> f in m.taken || exists p :: base <= p < base + count && n.table[p].frame == f)
  }

  /** `n` is `m` after the kernel pages `base .. base + count` were unmapped and their frames freed. */
  ghost predicate RunUnmapped(m: Machine, n: Machine, base: nat, count: nat) {
    m.Shape() && n.Shape() && base + count <= PAGES &&
    n == m.(table := n.table, taken := n.taken) &&
    (forall p :: 0 <= p < PAGES && !(base <= p < base + count) ==> n.table[p] == m.table[p]) &&
    (forall p :: base <= p < base + count ==> n.table[p] == ZERO) &&
    (forall f :: f in n.taken <==> f in m.taken && !exists p :: base <= p < base + count && m.table[p].present && m.table[p].frame == f)
  }

  /** Freeing a contiguous allocation restores the kernel's table and the bitmap, even if memory ran out on the way. */
  lemma UnmapUndoesMap(m: Machine, n: Machine, k: Machine, base: nat, count: nat)
    requires RunMapped(m, n, base, count) && RunUnmapped(n, k, base, count)
    requires forall p :: base <= p < base + count ==> m.table[p] == ZERO
    ensures k == m
  {
    assert k.table == m.table;
    forall f | f in m.taken
      ensures f in k.taken
    {
      forall p | base <= p < base + count
        ensures n.table[p].frame != f
      {
      }
    }
    assert k.taken == m.taken;
  }

  // ----- User pages of a running process

  lemma TableIsOneChange(m: Machine, s: nat, i: nat, f: Frame)
    requires m.Structure() && s in m.spaces && i < KERNEL_PDE && !m.Pde(s, i).present && FreeFrame(m, f)
    ensures var n := WithTable(m, s, i, f);
      n.Structure() && n.HasTable(s, i) && OnlyChanged(m, n, Table(s, i)) && Slot(n, Table(s, i)) == TableEntry(f)
  {
    TableCreated(m, s, i, f);
    var n := WithTable(m, s, i, f);
    hide Machine.Lookup, Machine.Pde, Machine.Structure;
    forall c | c != Table(s, i)
      ensures Slot(n, c) == Slot(m, c)
    {
    }
  }

  /** A free frame that becomes a page table has one holder: the directory entry. */
  lemma TableConserves(m: Machine, s: nat, i: nat, f: Frame)
    requires Conserved(m) && s in m.spaces && i < KERNEL_PDE && !m.Pde(s, i).present && FreeFrame(m, f)
    ensures Conserved(WithTable(m, s, i, f)) && WithTable(m, s, i, f).HasTable(s, i)
  {
    TableIsOneChange(m, s, i, f);
    GainFresh(m, WithTable(m, s, i, f), Table(s, i), f);
  }

  /** `n` is `m` after the free frame of `e` was taken and mapped at user page `p` of space `s`. */
  ghost predicate UserMapped(m: Machine, n: Machine, s: nat, p: nat, e: Entry) {
    m.Structure() && s in m.spaces && p < KERNEL_PAGE && !m.Lookup(s, p).present && e.present && FreeFrame(m, e.frame) &&
    EntrySet(m.(taken := m.taken + {e.frame}), n, s, p, e)
  }

  /** The machine between: the page table a user page needed has been made, the page itself is not yet mapped. */
  ghost function WithNeededTable(m: Machine, n: Machine, s: nat, p: nat): Machine
    requires m.Shape() && n.Shape() && s < PAGES && p < KERNEL_PAGE
  {
    if m.Pde(s, p / ENTRIES).present then m else WithTable(m, s, p / ENTRIES, n.Pde(s, p / ENTRIES).frame)
  }

  lemma NeededTableConserves(m: Machine, n: Machine, s: nat, p: nat, e: Entry)
    requires Conserved(m) && UserMapped(m, n, s, p, e)
    ensures Conserved(WithNeededTable(m, n, s, p))
  {
    MoreTaken(m, e.frame);
    if !m.Pde(s, p / ENTRIES).present {
      TableConserves(m, s, p / ENTRIES, n.Pde(s, p / ENTRIES).frame);
    }
  }

  lemma OnlyTheUserPage(m: Machine, n: Machine, s: nat, p: nat, e: Entry)
    requires m.Structure() && UserMapped(m, n, s, p, e)
    ensures var mid := WithNeededTable(m, n, s, p);
      && mid.Shape() && OnlyChanged(mid, n, UserPage(s, p)) && !Slot(mid, UserPage(s, p)).present && Holds(n, UserPage(s, p), e.frame)
      && Slot(n, UserPage(s, p)) == e && FreeFrame(mid, e.frame) && n.taken == mid.taken + {e.frame}
  {
    MoreTaken(m, e.frame);
    var mid := WithNeededTable(m, n, s, p);
    if !m.Pde(s, p / ENTRIES).present {
      TableCreated(m, s, p / ENTRIES, n.Pde(s, p / ENTRIES).frame);
    }
    assert m.Shape() && n.Shape() && mid.Shape();
    hide Machine.Lookup, Machine.Pde, Machine.Structure;
    forall c | c != UserPage(s, p)
      ensures Slot(n, c) == Slot(mid, c)
    {
    }
  }

  /** Mapping a user page conserves frames: the page holds its frame, and a page table made for it holds its own. */
  lemma UserMappedConserves(m: Machine, n: Machine, s: nat, p: nat, e: Entry)
    requires Conserved(m) && UserMapped(m, n, s, p, e)
    ensures Conserved(n)
  {
    NeededTableConserves(m, n, s, p, e);
    OnlyTheUserPage(m, n, s, p, e);
    assert n.Structure();
    hide Machine.Structure, Conserved, WithNeededTable;
    GainFresh(WithNeededTable(m, n, s, p), n, UserPage(s, p), e.frame);
  }

  lemma MoreTaken(k: Machine, f: nat)
    requires k.Structure() && k.dead <= f < k.len
    ensures var n := k.(taken := k.taken + {f});
      && n.Structure()
      && (forall s, p :: s in k.spaces && 0 <= p < KERNEL_PAGE ==> n.Lookup(s, p) == k.Lookup(s, p))
      && (forall s, i :: s in k.spaces && 0 <= i < ENTRIES ==> n.Pde(s, i) == k.Pde(s, i))
  {
    var n := k.(taken := k.taken + {f});
    assert n.Shape();
    forall s, i | s in k.spaces && 0 <= i < ENTRIES
      ensures n.Pde(s, i) == k.Pde(s, i)
    {
    }
  }

  // ----- Handing an image over to a new address space

  /** What creating the space `v` from `count` kernel pages at `base` does: the new directory is mapped at `v`, user
      page i holds what kernel page `base + i` held, those kernel pages are unmapped, and nothing else moves. */
  ghost predicate Transferred(m: Machine, n: Machine, v: nat, base: nat, count: nat) {
    m.Shape() && n.Structure() && n.dead == m.dead && n.len == m.len &&
    KERNEL_PAGE < v < PAGES && base + count <= PAGES && USER_PAGE + count <= KERNEL_PAGE &&
    v !in m.spaces && n.spaces == m.spaces + {v} && !m.table[v].present && FreeFrame(m, n.table[v].frame) &&
    n.table[v] == KernelMapping(n.table[v].frame) &&
    (forall p :: 0 <= p < PAGES && p != v ==> n.table[p] == if base <= p < base + count then ZERO else m.table[p]) &&
    SameSpaces(m, n) &&
    (forall p :: 0 <= p < KERNEL_PAGE ==>
      n.Lookup(v, p) ==
        if USER_PAGE <= p < USER_PAGE + count then m.table[base + (p - USER_PAGE)].(writable := true, user := true) else ZERO) &&
    (forall i :: 0 <= i < KERNEL_PDE && n.Pde(v, i).present ==>
      n.Pde(v, i) == TableEntry(n.Pde(v, i).frame) && FreeFrame(m, n.Pde(v, i).frame)) &&
    (forall f :: f in m.taken ==> f in n.taken) &&
    (forall f :: f in n.taken ==> f in m.taken || f == n.table[v].frame || exists i :: 0 <= i < KERNEL_PDE && Holds(n, Table(v, i), f))
  }

  /** Where the frame at a place of the new machine was held before. */
  function Origin(o: Owner, v: nat, base: nat): Owner {
    if o.UserPage? && o.space == v && o.page >= USER_PAGE then KernelPage(base + (o.page - USER_PAGE)) else o
  }

  ghost predicate IsNew(o: Owner, v: nat) {
    o == KernelPage(v) || (o.Table? && o.space == v)
  }

  lemma OriginHeld(m: Machine, n: Machine, v: nat, base: nat, count: nat, o: Owner, f: nat)
    requires Transferred(m, n, v, base, count) && Holds(n, o, f)
    ensures IsNew(o, v) ==> FreeFrame(m, f)
    ensures !IsNew(o, v) ==> Holds(m, Origin(o, v, base), f)
    ensures !IsNew(o, v) && o.KernelPage? ==> !(base <= o.page < base + count)
    ensures o.UserPage? && o.space == v ==> USER_PAGE <= o.page < USER_PAGE + count
  {
    hide Machine.Structure, Machine.Lookup, Machine.Pde;
  }

  lemma NewHeldOnce(m: Machine, n: Machine, v: nat, base: nat, count: nat, o: Owner, c: Owner, f: nat)
    requires Transferred(m, n, v, base, count) && Holds(n, o, f) && Holds(n, c, f) && IsNew(o, v) && IsNew(c, v)
    ensures o == c
  {
    assert v in n.spaces;
    if o.Table? {
      assert n.HasTable(v, o.index);
    }
    if c.Table? {
      assert n.HasTable(v, c.index);
    }
  }

  lemma TransferHoldsOnce(m: Machine, n: Machine, v: nat, base: nat, count: nat, o: Owner, c: Owner, f: nat)
    requires Conserved(m) && Transferred(m, n, v, base, count) && m.dead <= f && Holds(n, o, f) && Holds(n, c, f)
    ensures o == c
  {
    OriginHeld(m, n, v, base, count, o, f);
    OriginHeld(m, n, v, base, count, c, f);
    if IsNew(o, v) && IsNew(c, v) {
      NewHeldOnce(m, n, v, base, count, o, c, f);
    } else {
      hide Transferred, Holds, Machine.Structure;
      assert !IsNew(o, v) ==> f in m.taken;
      assert !IsNew(c, v) ==> f in m.taken;
      assert Origin(o, v, base) == Origin(c, v, base);
    }
  }

  lemma TransferLosesNone(m: Machine, n: Machine, v: nat, base: nat, count: nat, f: nat)
    requires Conserved(m) && Transferred(m, n, v, base, count) && f in n.taken
    ensures exists o :: Holds(n, o, f)
  {
    if f in m.taken {
      var o :| Holds(m, o, f);
      if o.KernelPage? && base <= o.page < base + count {
        var u := UserPage(v, USER_PAGE + (o.page - base));
        assert Slot(n, u) == n.Lookup(v, u.page);
        assert Holds(n, u, f);
      } else {
        hide Machine.Lookup, Machine.Pde, Machine.Structure;
        assert Holds(n, o, f);
      }
    } else if f == n.table[v].frame {
      assert n.table[v].present by {
        assert v in n.spaces;
      }
      assert Holds(n, KernelPage(v), f);
    }
  }

  /** Handing an image over conserves every frame. */
  lemma TransferConserves(m: Machine, n: Machine, v: nat, base: nat, count: nat)
    requires Conserved(m) && Transferred(m, n, v, base, count)
    ensures Conserved(n)
  {
    forall o, f | Holds(n, o, f) && n.dead <= f
      ensures f in n.taken
    {
      OriginHeld(m, n, v, base, count, o, f);
      if o.Table? && o.space == v {
        assert n.HasTable(v, o.index);
      } else if o == KernelPage(v) {
        assert v in n.spaces;
      }
    }
    forall o, c, f | Holds(n, o, f) && Holds(n, c, f) && n.dead <= f
      ensures o == c
    {
      TransferHoldsOnce(m, n, v, base, count, o, c, f);
    }
    forall f | f in n.taken
      ensures exists o :: Holds(n, o, f)
    {
      TransferLosesNone(m, n, v, base, count, f);
    }
  }
}
