/**
What is on the disk, independently of the reader: allocation-table entries as four little-endian bytes, clusters as
consecutive sectors of the data area, and a file as the list of clusters the table links
(Microsoft FAT32 File System Specification 1.03, section "FAT Data Structure").
*/
module Fat32Disk {
  import opened Bytes
  import opened Fat32Chain

  /** `n` bytes, the least significant one first. */
  function LittleEndian(x: nat, n: nat): (s: seq<Byte>)
    ensures |s| == n
  {
    if n == 0 then [] else [x % 256] + LittleEndian(x / 256, n - 1)
  }

  /** The table stores the 32-bit word `w` for cluster `c`: four bytes at `4 * (c % 128)` of table sector `c / 128`. */
  ghost predicate StoresWord(v: Volume, c: nat, w: nat) {
    var s := v.sector(v.reservedSectors + c / 128);
    w < 0x1_0000_0000 && s.Some? && |s.value| == 512 && s.value[4 * (c % 128)..4 * (c % 128) + 4] == LittleEndian(w, 4)
  }

  /** The table stores the entry `e` for cluster `c`, under any top four bits. */
  ghost predicate Stores(v: Volume, c: nat, e: nat) {
    exists w: nat :: w % 0x1000_0000 == e && StoresWord(v, c, w)
  }

  lemma FourBytes(x: nat)
    requires x < 0x1_0000_0000
    ensures var s := LittleEndian(x, 4); Word(s[0], s[1], s[2], s[3]) == x
  {
    var s := LittleEndian(x, 4);
    assert s == [x % 256] + LittleEndian(x / 256, 3);
    assert LittleEndian(x / 256, 3) == [x / 256 % 256] + LittleEndian(x / 256 / 256, 2);
    assert LittleEndian(x / 256 / 256, 2) == [x / 256 / 256 % 256] + LittleEndian(x / 256 / 256 / 256, 1);
    assert s == [x % 256, x / 256 % 256, x / 256 / 256 % 256, x / 256 / 256 / 256 % 256];
  }

  lemma SameFourBytes(s: seq<Byte>, at: nat, t: seq<Byte>)
    requires at + 4 <= |s| && |t| == 4 && s[at..at + 4] == t
    ensures s[at] == t[0] && s[at + 1] == t[1] && s[at + 2] == t[2] && s[at + 3] == t[3]
  {
    var part := s[at..at + 4];
    assert part[0] == s[at] && part[1] == s[at + 1] && part[2] == s[at + 2] && part[3] == s[at + 3];
  }

  lemma EntryIsWord(v: Volume, c: nat, w: nat)
    requires StoresWord(v, c, w)
    ensures v.Linked(c) && v.Entry(c) == w
  {
    SameFourBytes(v.sector(v.reservedSectors + c / 128).value, 4 * (c % 128), LittleEndian(w, 4));
    FourBytes(w);
    hide LittleEndian, Word;
  }

  /** `NextCluster` decodes what the table stores: the next cluster, or 0 for an end-of-chain mark. */
  lemma NextDecodes(v: Volume, c: nat, e: nat)
    requires Stores(v, c, e)
    ensures v.Linked(c) && v.Next(c) == if e < 0x0FFF_FFF8 then e else 0
  {
    hide StoresWord, Volume.Entry, Volume.Linked;
    var w: nat :| w % 0x1000_0000 == e && StoresWord(v, c, w);
    EntryIsWord(v, c, w);
  }

  /** Sector `i` of cluster `c`: cluster 2 starts the data area. */
  function DataSector(v: Volume, c: nat, i: nat): nat
    requires c >= 2
  {
    v.firstDataSector + (c - 2) * v.sectorsPerCluster + i
  }

  lemma SmallRemainder(x: nat)
    requires x < 0x1_0000_0000
    ensures x % 0x1_0000_0000 == x
  {
  }

  /** Where the reader looks for a cluster. */
  lemma FirstSectorIs(v: Volume, c: nat)
    requires c >= 2 && DataSector(v, c, 0) < 0x1_0000_0000
    ensures v.FirstSector(c) == DataSector(v, c, 0)
  {
    SmallRemainder(DataSector(v, c, 0));
  }

  /** Every cluster starts right behind the one before. */
  lemma ClustersInOrder(v: Volume, c: nat)
    requires c >= 2
    ensures DataSector(v, 2, 0) == v.firstDataSector
    ensures DataSector(v, c + 1, 0) == DataSector(v, c, v.sectorsPerCluster)
  {
    assert (c + 1 - 2) * v.sectorsPerCluster == (c - 2) * v.sectorsPerCluster + v.sectorsPerCluster;
  }

  /** Different clusters share no sector. */
  lemma {:induction false} ClustersApart(v: Volume, c: nat, d: nat)
    requires 2 <= c < d && DataSector(v, d, 0) < 0x1_0000_0000
    ensures v.FirstSector(c) + v.sectorsPerCluster <= v.FirstSector(d)
    decreases d
  {
    hide DataSector, Volume.FirstSector;
    DataSectorsGrow(v, c, d);
    FirstSectorIs(v, c);
    FirstSectorIs(v, d);
  }

  lemma {:induction false} DataSectorsGrow(v: Volume, c: nat, d: nat)
    requires 2 <= c < d
    ensures DataSector(v, c, 0) + v.sectorsPerCluster <= DataSector(v, d, 0)
    decreases d
  {
    ClustersInOrder(v, d - 1);
    if c < d - 1 {
      DataSectorsGrow(v, c, d - 1);
    }
  }

  /** Byte `x` of consecutive sectors is byte `x % 512` of sector `x / 512`. */
  lemma {:induction false} SectorsAt(v: Volume, first: nat, n: nat, x: nat)
    requires v.Ok() && v.Sectors(first, n).Some? && x < n * SECTOR_SIZE
    ensures |v.Sectors(first, n).value| == n * SECTOR_SIZE
    ensures var s := v.sector(first + x / 512); s.Some? && |s.value| == 512 && v.Sectors(first, n).value[x] == s.value[x % 512]
  {
    SectorsLength(v, first, n);
    SectorsLength(v, first, n - 1);
    if x < (n - 1) * SECTOR_SIZE {
      SectorsAt(v, first, n - 1, x);
    }
  }

  /** The table ends the chain at cluster `c`. */
  ghost predicate Ends(v: Volume, c: nat) {
    exists e: nat :: e >= 0x0FFF_FFF8 && Stores(v, c, e)
  }

  /** The table links exactly the clusters `cs`, in this order, and then ends the chain. */
  ghost predicate Links(v: Volume, cs: seq<nat>) {
    cs != [] &&
    (forall i :: 0 <= i < |cs| ==> 2 <= cs[i] < 0x0FFF_FFF8) &&
    (forall i :: 0 <= i < |cs| - 1 ==> Stores(v, cs[i], cs[i + 1])) &&
    Ends(v, cs[|cs| - 1])
  }

  /** Following the table from the first cluster visits exactly these clusters. */
  lemma {:induction false} ChainFollowsLinks(c: Chain, cs: seq<nat>, k: nat)
    requires c.volume.Ok() && Links(c.volume, cs) && c.first == cs[0]
    ensures c.Nth(k) == if k < |cs| then cs[k] else INVALID_CLUSTER
  {
    if k > 0 {
      ChainFollowsLinks(c, cs, k - 1);
      if k < |cs| {
        NextDecodes(c.volume, cs[k - 1], cs[k]);
      } else if k == |cs| {
        var e: nat :| e >= 0x0FFF_FFF8 && Stores(c.volume, cs[k - 1], e);
        NextDecodes(c.volume, cs[k - 1], e);
      }
    }
  }

  /** So the table entries of the chain can all be read. */
  lemma LinkedChainIsOk(c: Chain, cs: seq<nat>)
    requires c.volume.Ok() && Links(c.volume, cs) && c.first == cs[0]
    ensures c.Ok()
  {
    forall k: nat | c.Nth(k) != INVALID_CLUSTER
      ensures c.volume.Linked(c.Nth(k))
    {
      ChainFollowsLinks(c, cs, k);
      if k < |cs| - 1 {
        NextDecodes(c.volume, cs[k], cs[k + 1]);
      } else {
        var e: nat :| e >= 0x0FFF_FFF8 && Stores(c.volume, cs[|cs| - 1], e);
        NextDecodes(c.volume, cs[|cs| - 1], e);
      }
    }
  }

  /** The byte a file holds at position `x` of its `k`-th cluster, as the disk stores it. */
  lemma ByteOnDisk(c: Chain, cs: seq<nat>, k: nat, x: nat, pos: nat)
    requires c.volume.Ok() && Links(c.volume, cs) && c.first == cs[0] && k < |cs| && DataSector(c.volume, cs[k], 0) < 0x1_0000_0000
    requires x < c.volume.ClusterSize() && pos == k * c.volume.ClusterSize() + x && c.volume.Cluster(cs[k]).Some?
    ensures c.Ok() && c.Has(pos)
    ensures var s := c.volume.sector(DataSector(c.volume, cs[k], x / 512));
      s.Some? && |s.value| == 512 && c.ByteAt(pos) == s.value[x % 512]
  {
    LinkedChainIsOk(c, cs);
    ChainFollowsLinks(c, cs, k);
    FirstSectorIs(c.volume, cs[k]);
    SectorsAt(c.volume, c.volume.FirstSector(cs[k]), c.volume.sectorsPerCluster, x);
    hide Links, Chain.Ok, Volume.FirstSector, Chain.Has, Chain.ByteAt, Volume.Sectors;
    PositionInCluster(c, k, x, pos);
  }

  /** Behind its last cluster a file holds nothing. */
  lemma NothingBehind(c: Chain, cs: seq<nat>, pos: nat)
    requires c.volume.Ok() && Links(c.volume, cs) && c.first == cs[0] && pos >= |cs| * c.volume.ClusterSize()
    ensures c.Ok() && !c.Has(pos)
  {
    LinkedChainIsOk(c, cs);
    var size := c.volume.ClusterSize();
    QuotientAtLeast(pos, size, |cs|);
    ChainFollowsLinks(c, cs, Index(pos, size));
  }

  lemma QuotientAtLeast(p: nat, size: nat, n: nat)
    requires size > 0 && p >= n * size
    ensures p / size >= n
  {
    var d := n - p / size;
    assert p == p / size * size + p % size;
    assert d * size == n * size - p / size * size;
  }
}
