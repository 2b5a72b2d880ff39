/** The hooks between the heap and the virtual memory manager: what the page allocator returns is a range the heap may use. */
module HeapPages {
  import opened HeapLayout
  import opened HeapRuns
  import opened PageTables
  import opened FrameOwnership
  import opened AddressSpaces
  import opened KernelPages

  /** Every region of the heap starts on a page and lies on kernel pages that map frames of their own. */
  ghost predicate Backed(v: View, m: Machine) {
    |m.table| == PAGES &&
    forall k :: 0 <= k < |v| ==> RegionBacked(v[k], m)
  }

  /** Frames under the bitmap are held once each, so pages that map such frames are separate storage; frame 0 is not. */
  ghost predicate RegionBacked(r: Region, m: Machine) {
    r.addr % PAGE_SIZE == 0 && r.addr / PAGE_SIZE + r.pages <= |m.table| &&
    forall p :: r.addr / PAGE_SIZE <= p < r.addr / PAGE_SIZE + r.pages ==> PageBacked(m, p)
  }

  ghost predicate PageBacked(m: Machine, p: nat) {
    p < |m.table| && m.table[p].present && m.table[p].frame >= m.dead
  }

  /** Two pages of backed regions are different storage. */
  lemma BackedPagesAreSeparate(v: View, m: Machine, i: nat, j: nat, p: nat, q: nat)
    requires Conserved(m) && Backed(v, m) && i < |v| && j < |v| && p != q
    requires v[i].addr / PAGE_SIZE <= p < v[i].addr / PAGE_SIZE + v[i].pages
    requires v[j].addr / PAGE_SIZE <= q < v[j].addr / PAGE_SIZE + v[j].pages
    ensures p < PAGES && q < PAGES && m.table[p].frame != m.table[q].frame
  {
    assert m.Shape();
    hide Machine.Structure, AllMarked, NoneLost;
    assert RegionBacked(v[i], m) && RegionBacked(v[j], m);
    assert PageBacked(m, p) && PageBacked(m, q);
    assert Holds(m, KernelPage(p), m.table[p].frame) && Holds(m, KernelPage(q), m.table[q].frame);
  }

  /** `liballoc_alloc`: a run of unmapped pages overlaps no live region. Once mapped it backs the region built on it, while every
      older region stays backed, exactly when there were frames for all of its pages. */
  lemma AllocatedRunIsAGrant(v: View, m: Machine, n: Machine, base: nat, pages: nat)
    requires Backed(v, m) && (forall k :: 0 <= k < |v| ==> v[k].pages > 0)
    requires base > 0 && pages > 0 && FreePages(m.table, base, pages) && RunMapped(m, n, base, pages) && Conserved(n)
    ensures GrantOk(v, base * PAGE_SIZE, pages)
    ensures Backed(v, n)
    ensures Backed(v + [Region(base * PAGE_SIZE, pages, [])], n) <==> |FreeFrames(m)| >= pages
  {
    hide Conserved, Machine.Shape;
    var added := Region(base * PAGE_SIZE, pages, []);
    assert |n.table| == |m.table| by {
      RunTables(m, n, base, pages);
    }
    forall k | 0 <= k < |v|
      ensures Apart(v[k], added)
    {
      RunsDoNotMeet(v[k], m, base, pages);
    }
    forall k | 0 <= k < |v|
      ensures RegionBacked(v[k], n)
    {
      OlderStaysBacked(v[k], m, n, base, pages);
    }
    RunBackedIff(m, n, base, pages);
    var w := v + [added];
    assert w[|v|] == added && forall k :: 0 <= k < |v| ==> w[k] == v[k];
    hide RegionBacked, RunMapped;
  }

  lemma RunTables(m: Machine, n: Machine, base: nat, pages: nat)
    requires RunMapped(m, n, base, pages)
    ensures |n.table| == |m.table| == PAGES
  {
  }

  lemma RunsDoNotMeet(r: Region, m: Machine, base: nat, pages: nat)
    requires RegionBacked(r, m) && FreePages(m.table, base, pages) && r.pages > 0 && pages > 0
    ensures Apart(r, Region(base * PAGE_SIZE, pages, []))
  {
    var first: nat := r.addr / PAGE_SIZE;
    assert first <= base < first + r.pages ==> PageBacked(m, base);
    assert base <= first < base + pages ==> PageBacked(m, first);
  }

  lemma OlderStaysBacked(r: Region, m: Machine, n: Machine, base: nat, pages: nat)
    requires RegionBacked(r, m) && FreePages(m.table, base, pages) && RunMapped(m, n, base, pages)
    ensures RegionBacked(r, n)
  {
    forall p | r.addr / PAGE_SIZE <= p < r.addr / PAGE_SIZE + r.pages
      ensures PageBacked(n, p)
    {
      assert PageBacked(m, p);
    }
  }

  // ----- Counting frames

  /** The frames the first `i` pages of a run map, frame 0 aside. */
  ghost function RunFrames(n: Machine, base: nat, i: nat): set<nat>
    requires base + i <= |n.table|
  {
    if i == 0 then {}
    else RunFrames(n, base, i - 1) + if n.table[base + i - 1].frame == 0 then {} else {n.table[base + i - 1].frame as nat}
  }

  lemma {:induction false} InRunFrames(n: Machine, base: nat, i: nat, f: nat)
    requires base + i <= |n.table|
    ensures f in RunFrames(n, base, i) <==> f != 0 && exists p :: base <= p < base + i && n.table[p].frame == f
  {
    if i > 0 {
      InRunFrames(n, base, i - 1, f);
    }
  }

  /** Each page adds at most one frame, and a page on frame 0 adds none. */
  lemma {:induction false} RunFramesAtMost(n: Machine, base: nat, i: nat)
    requires base + i <= |n.table|
    ensures |RunFrames(n, base, i)| <= i
    ensures (exists p :: base <= p < base + i && n.table[p].frame == 0) ==> |RunFrames(n, base, i)| < i
  {
    if i > 0 {
      RunFramesAtMost(n, base, i - 1);
    }
  }

  /** Pages on different frames add one each. */
  lemma {:induction false} RunFramesExactly(n: Machine, base: nat, i: nat)
    requires base + i <= |n.table| && forall p :: base <= p < base + i ==> n.table[p].frame != 0
    requires forall p, q :: base <= p < q < base + i ==> n.table[p].frame != n.table[q].frame
    ensures |RunFrames(n, base, i)| == i
  {
    if i > 0 {
      RunFramesExactly(n, base, i - 1);
      InRunFrames(n, base, i - 1, n.table[base + i - 1].frame);
    }
  }

  lemma Fewer(b: set<nat>, a: set<nat>)
    requires b <= a
    ensures |b| <= |a|
  {
    assert a == b + (a - b);
  }

  /** A run is backed exactly when there were frames for all of its pages. */
  lemma RunBackedIff(m: Machine, n: Machine, base: nat, pages: nat)
    requires RunMapped(m, n, base, pages) && Conserved(n)
    ensures RegionBacked(Region(base * PAGE_SIZE, pages, []), n) <==> |FreeFrames(m)| >= pages
  {
    RunTables(m, n, base, pages);
    var added := Region(base * PAGE_SIZE, pages, []);
    assert added.addr / PAGE_SIZE == base;
    if exists p :: base <= p < base + pages && n.table[p].frame == 0 {
      ZeroMeansTooFew(m, n, base, pages);
    } else {
      NoZeroMeansEnough(m, n, base, pages);
    }
    hide Conserved;
  }

  lemma ZeroMeansTooFew(m: Machine, n: Machine, base: nat, pages: nat)
    requires RunMapped(m, n, base, pages) && exists p :: base <= p < base + pages && n.table[p].frame == 0
    ensures |n.table| == PAGES && |FreeFrames(m)| < pages && !RegionBacked(Region(base * PAGE_SIZE, pages, []), n)
  {
    RunTables(m, n, base, pages);
    var p :| base <= p < base + pages && n.table[p].frame == 0;
    assert !PageBacked(n, p);
    forall f | f in FreeFrames(m)
      ensures f in RunFrames(n, base, pages)
    {
      InRunFrames(n, base, pages, f);
    }
    Fewer(FreeFrames(m), RunFrames(n, base, pages));
    RunFramesAtMost(n, base, pages);
  }

  lemma NoZeroMeansEnough(m: Machine, n: Machine, base: nat, pages: nat)
    requires RunMapped(m, n, base, pages) && Conserved(n) && |n.table| == PAGES
    requires !exists p :: base <= p < base + pages && n.table[p].frame == 0
    ensures |FreeFrames(m)| >= pages && RegionBacked(Region(base * PAGE_SIZE, pages, []), n)
  {
    hide Machine.Structure, AllMarked, NoneLost;
    forall p | base <= p < base + pages
      ensures PageBacked(n, p) && FreeFrame(m, n.table[p].frame)
    {
    }
    forall p, q | base <= p < q < base + pages
      ensures n.table[p].frame != n.table[q].frame
    {
      assert Holds(n, KernelPage(p), n.table[p].frame) && Holds(n, KernelPage(q), n.table[q].frame);
    }
    RunFramesExactly(n, base, pages);
    forall f | f in RunFrames(n, base, pages)
      ensures f in FreeFrames(m)
    {
      InRunFrames(n, base, pages, f);
    }
    Fewer(RunFrames(n, base, pages), FreeFrames(m));
  }

  /** The failing input: when memory has run out, every page of the run maps frame 0 and the region is not backed. */
  lemma NoFramesNoBacking(m: Machine, n: Machine, base: nat, pages: nat)
    requires RunMapped(m, n, base, pages) && pages > 0 && OutOfFrames(m)
    ensures forall p :: base <= p < base + pages ==> n.table[p].frame == 0
    ensures !RegionBacked(Region(base * PAGE_SIZE, pages, []), n)
  {
    forall p | base <= p < base + pages
      ensures n.table[p].frame == 0
    {
      assert !FreeFrame(m, n.table[p].frame);
    }
    assert n.table[base].frame == 0;
    ZeroMeansTooFew(m, n, base, pages);
  }

  /** `liballoc_free`: unmapping the pages of one region leaves the others backed. */
  lemma ReleasedRunKeepsOthers(v: View, k: nat, m: Machine, n: Machine)
    requires WellFormed(v) && k < |v| && Backed(v, m)
    requires RunUnmapped(m, n, v[k].addr / PAGE_SIZE, v[k].pages)
    ensures Backed(v[..k] + v[k + 1..], n)
  {
    var w := v[..k] + v[k + 1..];
    forall i | 0 <= i < |w|
      ensures RegionBacked(w[i], n)
    {
      var j := if i < k then i else i + 1;
      assert RegionBacked(v[j], m) && RegionBacked(v[k], m);
      assert Apart(v[j], v[k]) by {
        assert j < k ==> Apart(v[j], v[k]);
        assert k < j ==> Apart(v[k], v[j]);
      }
      OtherStaysBacked(v[j], v[k], m, n);
    }
  }

  lemma OtherStaysBacked(r: Region, gone: Region, m: Machine, n: Machine)
    requires RegionBacked(r, m) && gone.addr % PAGE_SIZE == 0 && Apart(r, gone) && RunUnmapped(m, n, gone.addr / PAGE_SIZE, gone.pages)
    ensures RegionBacked(r, n)
  {
    forall p | r.addr / PAGE_SIZE <= p < r.addr / PAGE_SIZE + r.pages
      ensures PageBacked(n, p)
    {
      assert PageBacked(m, p);
    }
  }
}
