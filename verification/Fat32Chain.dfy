/**
FAT32 cluster chains as values (Microsoft FAT32 File System Specification 1.03, section "FAT Data Structure"):
the bytes a chain holds, position by position, and what a slice of them is.
*/
module Fat32Chain {
  import opened Bytes

  const TWO32: nat := 0x1_0000_0000
  const TWO64: nat := 0x1_0000_0000_0000_0000
  const SECTOR_SIZE: nat := 512
  const INVALID_CLUSTER: nat := 0
  /** Entries from here on end a chain. */
  const LAST_ENTRY: nat := 0x0FFF_FFF8

  datatype Option<+T> = None | Some(value: T)

  /** Four bytes read as a little-endian `uint32_t`. */
  function Word(b0: nat, b1: nat, b2: nat, b3: nat): nat {
    b0 + 0x100 * b1 + 0x1_0000 * b2 + 0x100_0000 * b3
  }

  /** Which cluster of `size` bytes holds position `pos`, and where in it. */
  function Index(pos: nat, size: nat): nat
    requires size > 0
  {
    pos / size
  }

  function Offset(pos: nat, size: nat): (r: nat)
    requires size > 0
    ensures r < size
  {
    pos % size
  }

  /** A mounted volume; `sector(n)` is what reading sector `n` of its partition yields, or nothing on an error. */
  datatype Volume = Volume(sectorsPerCluster: nat, reservedSectors: nat, firstDataSector: nat, sector: nat -> Option<seq<Byte>>) {

    /** Sectors are 512 bytes and clusters are not empty. */
    ghost predicate Ok() {
      sectorsPerCluster > 0 && forall n :: sector(n).Some? ==> |sector(n).value| == SECTOR_SIZE
    }

    function ClusterSize(): nat {
      sectorsPerCluster * SECTOR_SIZE
    }

    function FatSector(c: nat): Option<seq<Byte>> {
      sector(reservedSectors + c / (SECTOR_SIZE / 4))
    }

    /** The first sector of cluster `c`, computed in 32 bits. */
    function FirstSector(c: nat): nat {
      ((c - 2) * sectorsPerCluster + firstDataSector) % TWO32
    }

    /** `n` consecutive sectors, if all of them can be read. */
    function Sectors(first: nat, n: nat): Option<seq<Byte>> {
      if n == 0 then Some([])
      else
        match (Sectors(first, n - 1), sector(first + n - 1))
        case (Some(front), Some(last)) => Some(front + last)
        case _ => None
    }

    /** The bytes of cluster `c`. */
    function Cluster(c: nat): Option<seq<Byte>> {
      Sectors(FirstSector(c), sectorsPerCluster)
    }

    /** The table entry of cluster `c` can be read. */
    predicate Linked(c: nat) {
      FatSector(c).Some? && |FatSector(c).value| == SECTOR_SIZE
    }

    /** The table entry of cluster `c`. */
    function Entry(c: nat): nat
      requires Linked(c)
    {
      var s, at := FatSector(c).value, c % (SECTOR_SIZE / 4) * 4;
      Word(s[at], s[at + 1], s[at + 2], s[at + 3])
    }

    /** The cluster after `c`, or 0 at the end of the chain: the table entry with its top four bits masked. */
    function Next(c: nat): (n: nat)
      requires Linked(c)
      ensures n < LAST_ENTRY
    {
      var value := Entry(c) % 0x1000_0000;
      if value < LAST_ENTRY then value else INVALID_CLUSTER
    }
  }

  lemma {:induction false} SectorsLength(v: Volume, first: nat, n: nat)
    requires v.Ok()
    ensures v.Sectors(first, n).Some? ==> |v.Sectors(first, n).value| == n * SECTOR_SIZE
  {
    if n > 0 {
      SectorsLength(v, first, n - 1);
    }
  }

  /** A chain: a volume and the first cluster of a file. */
  datatype Chain = Chain(volume: Volume, first: nat) {

    /** The table entries of the chain's own clusters can be read. */
    ghost predicate Ok() {
      volume.Ok() && first < TWO32 && forall k: nat :: Nth(k) != INVALID_CLUSTER ==> volume.Linked(Nth(k))
    }

    /** The `k`-th cluster of the chain: `k` steps along the table, 0 once the chain has ended or cannot be followed. */
    function Nth(k: nat): (c: nat)
      ensures first < TWO32 ==> c < TWO32
    {
      if k == 0 then first
      else if Nth(k - 1) == INVALID_CLUSTER || !volume.Linked(Nth(k - 1)) then INVALID_CLUSTER
      else volume.Next(Nth(k - 1))
    }

    /** The `k`-th cluster exists and can be read. */
    predicate Readable(k: nat)
      requires Ok()
    {
      Nth(k) != INVALID_CLUSTER && volume.Cluster(Nth(k)).Some?
    }

    /** Position `pos` lies in a readable cluster of the chain. */
    ghost predicate Has(pos: nat)
      requires Ok()
    {
      volume.ClusterSize() > 0 && Readable(Index(pos, volume.ClusterSize()))
    }

    /** The bytes of the `k`-th cluster. */
    ghost function Bytes(k: nat): (s: seq<Byte>)
      requires Ok() && Readable(k)
      ensures |s| == volume.ClusterSize()
    {
      SectorsLength(volume, volume.FirstSector(Nth(k)), volume.sectorsPerCluster);
      volume.Cluster(Nth(k)).value
    }

    /** The byte at position `pos` of the chain. */
    ghost function ByteAt(pos: nat): Byte
      requires Ok() && Has(pos)
    {
      Bytes(Index(pos, volume.ClusterSize()))[Offset(pos, volume.ClusterSize())]
    }
  }

  lemma ClusterSizePositive(v: Volume)
    requires v.Ok()
    ensures v.ClusterSize() > 0
  {
  }

  ghost predicate HasAt(c: Chain, seek: nat, i: nat)
    requires c.Ok()
  {
    c.Has(seek + i)
  }

  ghost function ByteFrom(c: Chain, seek: nat, i: nat): Byte
    requires c.Ok() && HasAt(c, seek, i)
  {
    c.ByteAt(seek + i)
  }

  /** The chain holds `bytes` at `seek`. */
  ghost predicate Holds(c: Chain, seek: nat, bytes: seq<Byte>)
    requires c.Ok()
  {
    forall i: nat :: i < |bytes| ==> HasAt(c, seek, i) && bytes[i] == ByteFrom(c, seek, i)
  }

  /** `bytes` is what reading up to `want` bytes at `seek` must yield: the chain's bytes from `seek` on, as many as
      were wanted, or as many as there are before the chain ends or a cluster cannot be read. */
  ghost predicate IsSlice(c: Chain, seek: nat, want: nat, bytes: seq<Byte>)
    requires c.Ok()
  {
    |bytes| <= want && Holds(c, seek, bytes) && (|bytes| < want ==> !HasAt(c, seek, |bytes|))
  }

  /** A slice is determined by where it starts and how much is wanted. */
  lemma SliceIsUnique(c: Chain, seek: nat, want: nat, a: seq<Byte>, b: seq<Byte>)
    requires c.Ok() && IsSlice(c, seek, want, a) && IsSlice(c, seek, want, b)
    ensures a == b
  {
    hide Chain.Has, Chain.ByteAt, Chain.Ok;
    assert |a| == |b|;
  }

  lemma HoldsConcat(c: Chain, seek: nat, a: seq<Byte>, b: seq<Byte>)
    requires c.Ok() && Holds(c, seek, a) && Holds(c, seek + |a|, b)
    ensures Holds(c, seek, a + b)
  {
    hide Chain.Has, Chain.ByteAt, Chain.Ok;
    forall i: nat | i < |a + b|
      ensures HasAt(c, seek, i) && (a + b)[i] == ByteFrom(c, seek, i)
    {
      if i >= |a| {
        assert HasAt(c, seek + |a|, i - |a|) && b[i - |a|] == ByteFrom(c, seek + |a|, i - |a|);
        assert seek + |a| + (i - |a|) == seek + i;
      }
    }
  }

  /** Reading `m` and then `n` bytes yields what reading `m + n` bytes at once does. */
  lemma SlicesCompose(c: Chain, seek: nat, m: nat, n: nat, a: seq<Byte>, b: seq<Byte>)
    requires c.Ok() && IsSlice(c, seek, m, a) && IsSlice(c, seek + |a|, n, b)
    ensures IsSlice(c, seek, m + n, a + b)
  {
    hide Chain.Has, Chain.ByteAt, Chain.Ok;
    HoldsConcat(c, seek, a, b);
    assert HasAt(c, seek + |a|, 0) == HasAt(c, seek, |a|);
    assert HasAt(c, seek + |a|, |b|) == HasAt(c, seek, |a| + |b|);
  }

  // ----- Whole clusters and parts of clusters

  /** Cluster `k`, position `r` in it, as one number and back. */
  lemma SplitPosition(k: nat, size: nat, r: nat, pos: nat)
    requires r < size && pos == k * size + r
    ensures Index(pos, size) == k && Offset(pos, size) == r
  {
    QuotientIsUnique(pos, size, k, r);
  }

  lemma QuotientIsUnique(p: nat, size: nat, q: nat, r: nat)
    requires size > 0 && r < size && p == q * size + r
    ensures p / size == q && p % size == r
  {
    var d := p / size - q;
    assert p == (p / size) * size + p % size;
    assert d * size == (p / size) * size - q * size;
    assert d * size == r - p % size;
  }

  lemma PositionInCluster(c: Chain, k: nat, r: nat, pos: nat)
    requires c.Ok() && c.Readable(k) && r < c.volume.ClusterSize() && pos == k * c.volume.ClusterSize() + r
    ensures c.Has(pos) && c.ByteAt(pos) == c.Bytes(k)[r]
  {
    SplitPosition(k, c.volume.ClusterSize(), r, pos);
    hide Volume.ClusterSize, Chain.Bytes, Chain.Readable, Chain.Ok, Index, Offset;
  }

  /** Part of a readable cluster, seen from the position where it starts. */
  lemma ClusterPartHolds(c: Chain, k: nat, from: nat, to: nat, seek: nat)
    requires c.Ok() && c.Readable(k) && from <= to <= c.volume.ClusterSize() && seek == k * c.volume.ClusterSize() + from
    ensures Holds(c, seek, c.Bytes(k)[from..to])
  {
    hide Volume.ClusterSize, Chain.Bytes, Chain.Readable, Chain.Ok, Chain.Has, Chain.ByteAt;
    var part := c.Bytes(k)[from..to];
    forall i: nat | i < |part|
      ensures HasAt(c, seek, i) && part[i] == ByteFrom(c, seek, i)
    {
      PositionInCluster(c, k, from + i, seek + i);
    }
  }

  /** An unreadable cluster ends what can be read in front of it. */
  lemma NothingAt(c: Chain, k: nat, from: nat, seek: nat)
    requires c.Ok() && !c.Readable(k) && from < c.volume.ClusterSize() && seek == k * c.volume.ClusterSize() + from
    ensures !HasAt(c, seek, 0)
  {
    SplitPosition(k, c.volume.ClusterSize(), from, seek);
  }

  lemma {:induction false} ChainStaysEnded(c: Chain, i: nat, k: nat)
    requires c.Ok() && i <= k && c.Nth(i) == INVALID_CLUSTER
    ensures c.Nth(k) == INVALID_CLUSTER
  {
    if i < k {
      ChainStaysEnded(c, i, k - 1);
    }
  }

  // ----- Requests shorter than the rest of the current cluster

  /** What is left of the cluster at `offset`, 0 at a cluster boundary. */
  function Leading(size: nat, offset: nat): nat
    requires size > 0 && offset < size
  {
    (size - offset) % size
  }

  /** The number of bytes the reader sets out to read from cluster `k`, position `offset`. It takes the rest of that cluster
      whatever was asked for, and then subtracts it from the request in 32 bits. */
  ghost function Request(c: Chain, k: nat, offset: nat, want: nat): nat
    requires c.Ok() && offset < c.volume.ClusterSize()
  {
    if want < Leading(c.volume.ClusterSize(), offset) && c.Readable(k) then want + TWO32 else want
  }

  /** The reader yields the slice that was asked for exactly when the request covers the rest of the current cluster, or
      nothing can be read there at all. */
  lemma ReadsSliceIff(c: Chain, k: nat, offset: nat, seek: nat, want: nat, bytes: seq<Byte>)
    requires c.Ok() && offset < c.volume.ClusterSize() && seek == k * c.volume.ClusterSize() + offset
    requires IsSlice(c, seek, Request(c, k, offset, want), bytes)
    ensures IsSlice(c, seek, want, bytes) <==> want >= Leading(c.volume.ClusterSize(), offset) || !c.Readable(k)
  {
    hide Volume.ClusterSize, Chain.Readable, Chain.Bytes, Chain.Ok, Holds, HasAt, Leading;
    var size := c.volume.ClusterSize();
    if want < Leading(size, offset) && c.Readable(k) {
      LeadingIs(size, offset);
      ClusterPartHolds(c, k, offset, size, seek);
      SliceReachesFurther(c, seek, want + TWO32, bytes, c.Bytes(k)[offset..size], want);
    }
  }

  /** Asking for one byte of a readable cluster of 512, from its second byte on, fills at least 511. */
  lemma ShortReadOverfills(c: Chain, bytes: seq<Byte>)
    requires c.Ok() && c.volume.ClusterSize() == 512 && c.Readable(0) && IsSlice(c, 1, Request(c, 0, 1, 1), bytes)
    ensures |bytes| >= 511
  {
    ClusterPartHolds(c, 0, 1, 512, 1);
    SliceReachesFurther(c, 1, 1 + TWO32, bytes, c.Bytes(0)[1..512], 510);
  }

  lemma LeadingIs(size: nat, offset: nat)
    requires offset < size
    ensures Leading(size, offset) == if offset == 0 then 0 else size - offset
  {
    if offset == 0 {
      QuotientIsUnique(size, size, 1, 0);
    } else {
      QuotientIsUnique(size - offset, size, 0, size - offset);
    }
  }

  lemma SliceReachesFurther(c: Chain, seek: nat, request: nat, bytes: seq<Byte>, part: seq<Byte>, want: nat)
    requires c.Ok() && IsSlice(c, seek, request, bytes) && Holds(c, seek, part) && want < |part| && want < request
    ensures |bytes| > want
  {
    hide HasAt, Chain.Ok;
  }
}
