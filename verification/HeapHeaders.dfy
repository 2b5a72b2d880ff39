/**
The header store of the heap. The allocator forges pointers by address arithmetic, so headers are
kept by address, and a heap value fixes what every live header must contain: both doubly linked lists,
the owning major, the sizes and the magic number.
*/
module HeapHeaders {
  import opened HeapLayout
  import opened HeapRuns

  const MAGIC: nat := 0xc001c0de
  const DEAD: nat := 0xdeaddead

  /** `struct liballoc_major`; address 0 is the null pointer. */
  datatype Major = Major(prev: nat, next: nat, pages: nat, size: nat, usage: nat, first: nat)

  /** `struct liballoc_minor`. */
  datatype Minor = Minor(prev: nat, next: nat, block: nat, magic: nat, size: nat, reqSize: nat)

  /** Address of region `k`, or null past either end of the list. */
  function RegionAddr(v: View, k: int): nat {
    if 0 <= k < |v| then v[k].addr else 0
  }

  /** Address of block `j`, or null past either end of the list. */
  function BlockAddr(r: Region, j: int): nat {
    if 0 <= j < |r.blocks| then r.blocks[j].addr else 0
  }

  function MajorOf(v: View, k: nat): Major
    requires k < |v|
  {
    Major(RegionAddr(v, k - 1), RegionAddr(v, k + 1), v[k].pages, v[k].Size(), v[k].Usage(), BlockAddr(v[k], 0))
  }

  function MinorOf(r: Region, j: nat): Minor
    requires j < |r.blocks|
  {
    Minor(BlockAddr(r, j - 1), BlockAddr(r, j + 1), r.addr, MAGIC, r.blocks[j].size, r.blocks[j].req)
  }

  ghost predicate MajorsMatch(v: View, majors: map<nat, Major>) {
    forall k: nat {:trigger MajorOf(v, k)} :: k < |v| ==> v[k].addr in majors && majors[v[k].addr] == MajorOf(v, k)
  }

  ghost predicate RegionMinorsMatch(r: Region, minors: map<nat, Minor>) {
    forall j: nat {:trigger MinorOf(r, j)} :: j < |r.blocks| ==> r.blocks[j].addr in minors && minors[r.blocks[j].addr] == MinorOf(r, j)
  }

  ghost predicate MinorsMatch(v: View, minors: map<nat, Minor>) {
    forall k :: 0 <= k < |v| ==> RegionMinorsMatch(v[k], minors)
  }

  ghost predicate IsBlockAddr(v: View, a: nat) {
    exists k: nat, j: nat :: IsSlot(v, k, j) && v[k].blocks[j].addr == a
  }

  /** A header that still carries the live magic belongs to a live block. */
  ghost predicate MagicMeansLive(v: View, minors: map<nat, Minor>) {
    0 !in minors && forall a :: a in minors && minors[a].magic == MAGIC ==> IsBlockAddr(v, a)
  }

  ghost predicate HeadersMatch(v: View, majors: map<nat, Major>, minors: map<nat, Minor>) {
    MajorsMatch(v, majors) && MinorsMatch(v, minors) && MagicMeansLive(v, minors)
  }

  /** The tag in front of a live payload. */
  ghost predicate TagsMatch(v: View, mem: seq<int>) {
    |mem| == ADDRESS_SPACE &&
    forall k: nat, j: nat :: IsSlot(v, k, j) ==> v[k].blocks[j].TagAt() < |mem| && mem[v[k].blocks[j].TagAt()] == v[k].blocks[j].Tag()
  }

  // ----- Linking a block in

  /** The minor list after block `b` was linked in as block `j` of `r`. */
  ghost predicate LinkedIn(r: Region, j: nat, b: Block, before: map<nat, Minor>, after: map<nat, Minor>)
    requires j <= |r.blocks|
  {
    var t := r.Insert(j, b);
    b.addr in after && after[b.addr] == MinorOf(t, j) &&
    (j > 0 ==> r.blocks[j - 1].addr in after && after[r.blocks[j - 1].addr] == MinorOf(t, j - 1)) &&
    (j < |r.blocks| ==> r.blocks[j].addr in after && after[r.blocks[j].addr] == MinorOf(t, j + 1)) &&
    SameExcept(before, after, {b.addr, BlockAddr(r, j - 1), BlockAddr(r, j)} - {0})
  }

  ghost predicate SameExcept(before: map<nat, Minor>, after: map<nat, Minor>, s: set<nat>) {
    (forall a :: a in before && a !in s ==> a in after && after[a] == before[a]) &&
    (forall a :: a in after && a !in s ==> a in before)
  }

  lemma RegionLinkedIn(r: Region, j: nat, size: nat, req: nat, before: map<nat, Minor>, after: map<nat, Minor>)
    requires r.Ok() && j <= |r.blocks| && r.Fits(j, size + HEADER) && req + ALIGNMENT + ALIGN_INFO <= size
    requires RegionMinorsMatch(r, before)
    requires LinkedIn(r, j, Block(r.GapStart(j), size, req), before, after)
    ensures RegionMinorsMatch(r.Insert(j, Block(r.GapStart(j), size, req)), after)
  {
    var b := Block(r.GapStart(j), size, req);
    var t := r.Insert(j, b);
    InsertKeepsOk(r, j, size, req);
    forall i: nat | i < |t.blocks|
      ensures t.blocks[i].addr in after && after[t.blocks[i].addr] == MinorOf(t, i)
    {
      if i < j - 1 {
        BlocksInOrder(r, i, j - 1);
        BlocksInOrder(t, i, j);
        if j < |r.blocks| {
          BlocksInOrder(r, i, j);
        }
        BlockInside(t, i);
        assert MinorOf(t, i) == MinorOf(r, i);
      } else if i > j + 1 {
        BlocksInOrder(t, j, i);
        BlocksInOrder(t, j + 1, i);
        if j > 0 {
          BlocksInOrder(t, j - 1, i);
        }
        BlockInside(t, i);
        assert t.blocks[i] == r.blocks[i - 1];
        assert MinorOf(t, i) == MinorOf(r, i - 1);
      }
    }
  }

  /** Changes inside one region leave the headers of a region apart from it alone. */
  lemma OtherRegionKept(r: Region, s: Region, before: map<nat, Minor>, after: map<nat, Minor>, touched: set<nat>)
    requires s.Ok() && Apart(r, s) && RegionMinorsMatch(s, before)
    requires SameExcept(before, after, touched)
    requires forall a :: a in touched ==> r.addr <= a < r.End()
    ensures RegionMinorsMatch(s, after)
  {
    forall i: nat | i < |s.blocks|
      ensures s.blocks[i].addr in after && after[s.blocks[i].addr] == MinorOf(s, i)
    {
      BlockInside(s, i);
      var m := MinorOf(s, i);
    }
  }

  lemma MajorsAfterReplace(v: View, k: nat, r: Region, majors: map<nat, Major>)
    requires WellFormed(v) && k < |v| && MajorsMatch(v, majors)
    requires r.addr == v[k].addr && r.pages == v[k].pages
    ensures MajorsMatch(v[k := r], majors[r.addr := MajorOf(v[k := r], k)])
  {
    hide Used, WellFormed;
    var w := v[k := r];
    var after := majors[r.addr := MajorOf(w, k)];
    forall m: nat | m < |w|
      ensures w[m].addr in after && after[w[m].addr] == MajorOf(w, m)
    {
      if m != k {
        RegionAddrsDiffer(v, m, k);
        assert MajorOf(w, m) == MajorOf(v, m);
      }
    }
  }

  lemma RegionAddrsDiffer(v: View, k: nat, m: nat)
    requires WellFormed(v) && k < |v| && m < |v| && k != m
    ensures v[k].addr != v[m].addr
  {
    assert k < m ==> Apart(v[k], v[m]);
    assert m < k ==> Apart(v[m], v[k]);
  }

  lemma SlotsSurviveInsert(v: View, k: nat, j: nat, b: Block, a: nat)
    requires k < |v| && j <= |v[k].blocks| && (IsBlockAddr(v, a) || a == b.addr)
    ensures IsBlockAddr(v[k := v[k].Insert(j, b)], a)
  {
    var w := v[k := v[k].Insert(j, b)];
    if IsBlockAddr(v, a) {
      var m: nat, i: nat :| IsSlot(v, m, i) && v[m].blocks[i].addr == a;
      var i' := if m == k && i >= j then i + 1 else i;
      assert IsSlot(w, m, i') && w[m].blocks[i'] == v[m].blocks[i];
    } else {
      assert IsSlot(w, k, j) && w[k].blocks[j] == b;
    }
  }

  /** Linking a block into a gap keeps every header of the heap right. */
  lemma HeadersAfterPlace(v: View, k: nat, j: nat, req: nat,
                          majors: map<nat, Major>, minors: map<nat, Minor>, after: map<nat, Minor>)
    requires WellFormed(v) && HeadersMatch(v, majors, minors)
    requires k < |v| && j <= |v[k].blocks| && v[k].Fits(j, Need(req))
    requires LinkedIn(v[k], j, NewBlock(v, k, j, req), minors, after)
    ensures var w := v[k := v[k].Insert(j, NewBlock(v, k, j, req))];
            HeadersMatch(w, majors[v[k].addr := MajorOf(w, k)], after)
  {
    hide Used, RegionMinorsMatch;
    var b := NewBlock(v, k, j, req);
    var t := v[k].Insert(j, b);
    var w := v[k := t];
    MajorsAfterReplace(v, k, t, majors);
    RegionLinkedIn(v[k], j, SizeFor(req), req, minors, after);
    InsertKeepsOk(v[k], j, SizeFor(req), req);
    MinorsAfterLinkIn(v, k, j, b, minors, after);
    forall a | a in after && after[a].magic == MAGIC
      ensures IsBlockAddr(w, a)
    {
      if a != b.addr {
        LinkedAddressesAreLive(v, k, j, b, minors, after, a);
      }
      SlotsSurviveInsert(v, k, j, b, a);
    }
  }

  lemma MinorsAfterLinkIn(v: View, k: nat, j: nat, b: Block, minors: map<nat, Minor>, after: map<nat, Minor>)
    requires WellFormed(v) && MinorsMatch(v, minors) && k < |v| && j <= |v[k].blocks|
    requires LinkedIn(v[k], j, b, minors, after) && v[k].Insert(j, b).Ok()
    requires RegionMinorsMatch(v[k].Insert(j, b), after)
    ensures MinorsMatch(v[k := v[k].Insert(j, b)], after)
  {
    var t := v[k].Insert(j, b);
    forall m | 0 <= m < |v| && m != k
      ensures RegionMinorsMatch(v[m], after)
    {
      assert Apart(v[k], v[m]) by {
        assert k < m ==> Apart(v[k], v[m]);
        assert m < k ==> Apart(v[m], v[k]);
      }
      BlockInside(t, j);
      if j > 0 {
        BlockInside(v[k], j - 1);
      }
      if j < |v[k].blocks| {
        BlockInside(v[k], j);
      }
      OtherRegionKept(v[k], v[m], minors, after, {b.addr, BlockAddr(v[k], j - 1), BlockAddr(v[k], j)} - {0});
    }
  }

  lemma LinkedAddressesAreLive(v: View, k: nat, j: nat, b: Block, minors: map<nat, Minor>, after: map<nat, Minor>, a: nat)
    requires MagicMeansLive(v, minors) && k < |v| && j <= |v[k].blocks| && LinkedIn(v[k], j, b, minors, after)
    requires b.addr != 0 && a in after && after[a].magic == MAGIC && a != b.addr
    ensures IsBlockAddr(v, a)
  {
    if j > 0 && a == v[k].blocks[j - 1].addr {
      assert IsSlot(v, k, j - 1);
    } else if j < |v[k].blocks| && a == v[k].blocks[j].addr {
      assert IsSlot(v, k, j);
    } else {
      assert a in minors;
    }
  }

  // ----- Linking a block out

  /** The minor list after block `j` of `r` was unlinked and its magic cleared. */
  ghost predicate LinkedOut(r: Region, j: nat, before: map<nat, Minor>, after: map<nat, Minor>)
    requires j < |r.blocks|
  {
    var t := r.Remove(j);
    r.blocks[j].addr in after && after[r.blocks[j].addr].magic == DEAD &&
    (j > 0 ==> r.blocks[j - 1].addr in after && after[r.blocks[j - 1].addr] == MinorOf(t, j - 1)) &&
    (j + 1 < |r.blocks| ==> r.blocks[j + 1].addr in after && after[r.blocks[j + 1].addr] == MinorOf(t, j)) &&
    SameExcept(before, after, {r.blocks[j].addr, BlockAddr(r, j - 1), BlockAddr(r, j + 1)} - {0})
  }

  lemma RegionLinkedOut(r: Region, j: nat, before: map<nat, Minor>, after: map<nat, Minor>)
    requires r.Ok() && j < |r.blocks| && RegionMinorsMatch(r, before) && LinkedOut(r, j, before, after)
    ensures RegionMinorsMatch(r.Remove(j), after)
  {
    var t := r.Remove(j);
    forall i: nat | i < |t.blocks|
      ensures t.blocks[i].addr in after && after[t.blocks[i].addr] == MinorOf(t, i)
    {
      if i < j - 1 {
        BlocksInOrder(r, i, j - 1);
        BlocksInOrder(r, i, j);
        if j + 1 < |r.blocks| {
          BlocksInOrder(r, i, j + 1);
        }
        BlockInside(r, i);
        assert MinorOf(t, i) == MinorOf(r, i);
      } else if i > j {
        BlocksInOrder(r, j, i + 1);
        BlocksInOrder(r, j + 1, i + 1);
        if j > 0 {
          BlocksInOrder(r, j - 1, i + 1);
        }
        BlockInside(r, i + 1);
        assert t.blocks[i] == r.blocks[i + 1];
        assert MinorOf(t, i) == MinorOf(r, i + 1);
      }
    }
  }

  lemma OthersAfterLinkOut(v: View, k: nat, j: nat, minors: map<nat, Minor>, after: map<nat, Minor>, m: nat)
    requires WellFormed(v) && MinorsMatch(v, minors) && IsSlot(v, k, j) && LinkedOut(v[k], j, minors, after)
    requires m < |v| && m != k
    ensures RegionMinorsMatch(v[m], after)
  {
    assert Apart(v[k], v[m]) by {
      assert k < m ==> Apart(v[k], v[m]);
      assert m < k ==> Apart(v[m], v[k]);
    }
    BlockInside(v[k], j);
    if j > 0 {
      BlockInside(v[k], j - 1);
    }
    if j + 1 < |v[k].blocks| {
      BlockInside(v[k], j + 1);
    }
    OtherRegionKept(v[k], v[m], minors, after, {v[k].blocks[j].addr, BlockAddr(v[k], j - 1), BlockAddr(v[k], j + 1)} - {0});
  }

  /** A live magic after unlinking `(k, j)` belongs to another live block. */
  lemma SurvivorIsLive(v: View, k: nat, j: nat, minors: map<nat, Minor>, after: map<nat, Minor>, a: nat)
      returns (m: nat, i: nat)
    requires MagicMeansLive(v, minors) && IsSlot(v, k, j) && LinkedOut(v[k], j, minors, after)
    requires a in after && after[a].magic == MAGIC
    ensures IsSlot(v, m, i) && v[m].blocks[i].addr == a && (m, i) != (k, j)
  {
    if j > 0 && a == v[k].blocks[j - 1].addr {
      m, i := k, j - 1;
    } else if j + 1 < |v[k].blocks| && a == v[k].blocks[j + 1].addr {
      m, i := k, j + 1;
    } else {
      assert a in minors && minors[a] == after[a];
      m, i :| IsSlot(v, m, i) && v[m].blocks[i].addr == a;
    }
  }

  /** Unlinking a block from a region that keeps others leaves every header of the heap right. */
  lemma HeadersAfterRemove(v: View, k: nat, j: nat,
                           majors: map<nat, Major>, minors: map<nat, Minor>, after: map<nat, Minor>)
    requires WellFormed(v) && HeadersMatch(v, majors, minors)
    requires IsSlot(v, k, j) && LinkedOut(v[k], j, minors, after)
    ensures var w := v[k := v[k].Remove(j)];
            HeadersMatch(w, majors[v[k].addr := MajorOf(w, k)], after)
  {
    hide Used, RegionMinorsMatch;
    var t := v[k].Remove(j);
    var w := v[k := t];
    MajorsAfterReplace(v, k, t, majors);
    RegionLinkedOut(v[k], j, minors, after);
    forall m: nat | m < |v| && m != k
      ensures RegionMinorsMatch(w[m], after)
    {
      OthersAfterLinkOut(v, k, j, minors, after, m);
    }
    forall a | a in after && after[a].magic == MAGIC
      ensures IsBlockAddr(w, a)
    {
      var m, i := SurvivorIsLive(v, k, j, minors, after, a);
      var i' := if m == k && i > j then i - 1 else i;
      assert IsSlot(w, m, i') && w[m].blocks[i'] == v[m].blocks[i];
    }
  }

  /** The major list after region `k` was unlinked. */
  ghost predicate MajorLinkedOut(v: View, k: nat, before: map<nat, Major>, after: map<nat, Major>)
    requires k < |v|
  {
    var w := v[..k] + v[k + 1..];
    (k > 0 ==> v[k - 1].addr in after && after[v[k - 1].addr] == MajorOf(w, k - 1)) &&
    (k + 1 < |v| ==> v[k + 1].addr in after && after[v[k + 1].addr] == MajorOf(w, k)) &&
    forall a :: a in before && a !in {v[k].addr, RegionAddr(v, k - 1), RegionAddr(v, k + 1)} ==> a in after && after[a] == before[a]
  }

  lemma MajorsAfterDrop(v: View, k: nat, before: map<nat, Major>, after: map<nat, Major>)
    requires WellFormed(v) && k < |v| && MajorsMatch(v, before) && MajorLinkedOut(v, k, before, after)
    ensures MajorsMatch(v[..k] + v[k + 1..], after)
  {
    hide Used, WellFormed;
    var w := v[..k] + v[k + 1..];
    forall m: nat | m < |w|
      ensures w[m].addr in after && after[w[m].addr] == MajorOf(w, m)
    {
      if m != k && m != k - 1 {
        var n := if m < k then m else m + 1;
        assert MajorOf(w, m) == MajorOf(v, n);
        RegionAddrsDiffer(v, n, k);
        if k > 0 {
          RegionAddrsDiffer(v, n, k - 1);
        }
        if k + 1 < |v| {
          RegionAddrsDiffer(v, n, k + 1);
        }
        RegionAddrPositive(v, n);
      }
    }
  }

  lemma RegionAddrPositive(v: View, k: nat)
    requires WellFormed(v) && k < |v|
    ensures v[k].addr > 0
  {
  }

  /** Unlinking the last block of a region and then the region leaves every other header right. */
  lemma HeadersAfterDrop(v: View, k: nat, majors: map<nat, Major>, majors': map<nat, Major>,
                         minors: map<nat, Minor>, after: map<nat, Minor>)
    requires WellFormed(v) && HeadersMatch(v, majors, minors)
    requires IsSlot(v, k, 0) && |v[k].blocks| == 1
    requires LinkedOut(v[k], 0, minors, after) && MajorLinkedOut(v, k, majors, majors')
    ensures HeadersMatch(v[..k] + v[k + 1..], majors', after)
  {
    hide Used, RegionMinorsMatch;
    var w := v[..k] + v[k + 1..];
    MajorsAfterDrop(v, k, majors, majors');
    forall m: nat | m < |w|
      ensures RegionMinorsMatch(w[m], after)
    {
      OthersAfterLinkOut(v, k, 0, minors, after, if m < k then m else m + 1);
    }
    forall a | a in after && after[a].magic == MAGIC
      ensures IsBlockAddr(w, a)
    {
      var m, i := SurvivorIsLive(v, k, 0, minors, after, a);
      var m' := if m > k then m - 1 else m;
      assert IsSlot(w, m', i) && w[m'] == v[m];
    }
  }

  /** The headers left once the pages `lo .. hi` are unmapped: whatever was stored there is gone. */
  function Released<T>(headers: map<nat, T>, lo: nat, hi: nat): map<nat, T> {
    map a | a in headers && !(lo <= a < hi) :: headers[a]
  }

  /** No header of a remaining region was stored on the pages given back. */
  lemma HeadersAfterRelease(v: View, k: nat, majors: map<nat, Major>, minors: map<nat, Minor>)
    requires WellFormed(v) && k < |v| && HeadersMatch(v[..k] + v[k + 1..], majors, minors)
    ensures HeadersMatch(v[..k] + v[k + 1..], Released(majors, v[k].addr, v[k].End()), Released(minors, v[k].addr, v[k].End()))
  {
    hide Used, Region.Ok;
    var w := v[..k] + v[k + 1..];
    var lo, hi := v[k].addr, v[k].End();
    forall m: nat | m < |w|
      ensures w[m].addr in Released(majors, lo, hi) && Released(majors, lo, hi)[w[m].addr] == MajorOf(w, m)
      ensures RegionMinorsMatch(w[m], Released(minors, lo, hi))
    {
      var n := if m < k then m else m + 1;
      assert Apart(v[k], v[n]) by {
        assert k < n ==> Apart(v[k], v[n]);
        assert n < k ==> Apart(v[n], v[k]);
      }
      assert w[m] == v[n] && RegionMinorsMatch(w[m], minors);
      RegionAfterRelease(v[k], v[n], minors);
      var header := MajorOf(w, m);
      RegionNotEmpty(v, n);
    }
    assert MagicMeansLive(w, Released(minors, lo, hi));
  }

  lemma RegionNotEmpty(v: View, k: nat)
    requires WellFormed(v) && k < |v|
    ensures v[k].addr < v[k].End()
  {
  }

  lemma RegionAfterRelease(r: Region, s: Region, minors: map<nat, Minor>)
    requires s.Ok() && Apart(r, s) && RegionMinorsMatch(s, minors)
    ensures RegionMinorsMatch(s, Released(minors, r.addr, r.End()))
  {
    forall i: nat | i < |s.blocks|
      ensures var after := Released(minors, r.addr, r.End()); s.blocks[i].addr in after && after[s.blocks[i].addr] == MinorOf(s, i)
    {
      BlockInside(s, i);
      var header := MinorOf(s, i);
    }
  }

  // ----- Appending a region

  /** The major list after an empty region was linked behind the last one. */
  ghost predicate MajorAppended(v: View, r: Region, before: map<nat, Major>, after: map<nat, Major>) {
    var w := v + [r];
    r.addr in after && after[r.addr] == MajorOf(w, |v|) &&
    (|v| > 0 ==> v[|v| - 1].addr in after && after[v[|v| - 1].addr] == MajorOf(w, |v| - 1)) &&
    forall a :: a in before && a != r.addr && a != RegionAddr(v, |v| - 1) ==> a in after && after[a] == before[a]
  }

  lemma HeadersAfterAppend(v: View, r: Region, majors: map<nat, Major>, after: map<nat, Major>, minors: map<nat, Minor>)
    requires WellFormed(v) && HeadersMatch(v, majors, minors) && WellFormed(v + [r])
    requires r.blocks == [] && MajorAppended(v, r, majors, after)
    ensures HeadersMatch(v + [r], after, minors)
  {
    hide Used, WellFormed;
    var w := v + [r];
    forall m: nat | m < |w|
      ensures w[m].addr in after && after[w[m].addr] == MajorOf(w, m)
    {
      if m < |v| - 1 {
        assert MajorOf(w, m) == MajorOf(v, m);
        RegionAddrsDiffer(w, m, |v|);
        RegionAddrsDiffer(w, m, |v| - 1);
      }
    }
    forall a | IsBlockAddr(v, a)
      ensures IsBlockAddr(w, a)
    {
      var m: nat, i: nat :| IsSlot(v, m, i) && v[m].blocks[i].addr == a;
      assert IsSlot(w, m, i) && w[m] == v[m];
    }
  }

  /** One region's headers after the request of block `(k, j)` was rewritten in place. */
  lemma MinorsAfterResize(v: View, k: nat, j: nat, req: nat, minors: map<nat, Minor>, m: nat)
    requires WellFormed(v) && MinorsMatch(v, minors) && IsSlot(v, k, j) && m < |v|
    ensures v[k].blocks[j].addr in minors
    ensures var a := v[k].blocks[j].addr;
            RegionMinorsMatch(v[k := v[k].Resize(j, req)][m], minors[a := minors[a].(reqSize := req)])
  {
    hide WellFormed;
    var header := MinorOf(v[k], j);
    var a := v[k].blocks[j].addr;
    var r := v[k := v[k].Resize(j, req)][m];
    var after := minors[a := minors[a].(reqSize := req)];
    forall i: nat | i < |r.blocks|
      ensures r.blocks[i].addr in after && after[r.blocks[i].addr] == MinorOf(r, i)
    {
      var other := MinorOf(v[m], i);
      if (m, i) != (k, j) {
        BlocksApart(v, k, j, m, i);
      }
    }
  }

  /** In-place `realloc` changes one header field and no address. */
  lemma HeadersAfterResize(v: View, k: nat, j: nat, req: nat, majors: map<nat, Major>, minors: map<nat, Minor>)
    requires WellFormed(v) && HeadersMatch(v, majors, minors) && IsSlot(v, k, j) && req <= v[k].blocks[j].req
    ensures v[k].blocks[j].addr in minors
    ensures var a := v[k].blocks[j].addr;
            HeadersMatch(v[k := v[k].Resize(j, req)], majors, minors[a := minors[a].(reqSize := req)])
  {
    hide Used, RegionMinorsMatch;
    MinorsAfterResize(v, k, j, req, minors, k);
    var w := v[k := v[k].Resize(j, req)];
    ResizeKeepsOk(v[k], j, req);
    forall m: nat | m < |w|
      ensures w[m].addr in majors && majors[w[m].addr] == MajorOf(w, m)
    {
      assert MajorOf(w, m) == MajorOf(v, m);
    }
    forall m: nat | m < |w|
      ensures RegionMinorsMatch(w[m], minors[v[k].blocks[j].addr := minors[v[k].blocks[j].addr].(reqSize := req)])
    {
      MinorsAfterResize(v, k, j, req, minors, m);
    }
    forall c | IsBlockAddr(v, c)
      ensures IsBlockAddr(w, c)
    {
      var m: nat, i: nat :| IsSlot(v, m, i) && v[m].blocks[i].addr == c;
      assert IsSlot(w, m, i) && w[m].blocks[i].addr == c;
    }
    assert IsSlot(v, k, j);
  }

  // ----- Tags

  /** The new block's tag is stored in its own bytes, so every other tag stays right. */
  lemma TagsAfterPlace(v: View, k: nat, j: nat, b: Block, mem: seq<int>)
    requires WellFormed(v) && TagsMatch(v, mem) && k < |v| && j <= |v[k].blocks|
    requires WellFormed(v[k := v[k].Insert(j, b)]) && b.TagAt() < |mem|
    ensures TagsMatch(v[k := v[k].Insert(j, b)], mem[b.TagAt() := b.Tag()])
  {
    var w := v[k := v[k].Insert(j, b)];
    forall m: nat, i: nat | IsSlot(w, m, i) && (m, i) != (k, j)
      ensures w[m].blocks[i].TagAt() < |mem| && mem[w[m].blocks[i].TagAt()] == w[m].blocks[i].Tag()
      ensures w[m].blocks[i].TagAt() != b.TagAt()
    {
      var i' := if m == k && i > j then i - 1 else i;
      assert IsSlot(v, m, i') && v[m].blocks[i'] == w[m].blocks[i];
      assert IsSlot(w, k, j);
      LivePayloadsAreSafe(w, m, i, k, j);
    }
    assert w[k].blocks[j] == b;
  }
}
