/** Reading a file on a FAT32 volume: skip along the chain, then a leading part, whole clusters and a trailing part. */
module Fat32File {
  import opened Bytes
  import opened Fat32Chain

  /** Clusters are counted in 32 bits; this is the position the reader starts from. */
  function StartPosition(seek: nat, size: nat): nat
    requires size > 0
  {
    Index(seek, size) % TWO32 * size + Offset(seek, size)
  }

  /** Below 2^32 clusters the reader starts where the file descriptor points. */
  lemma StartsAtSeek(seek: nat, size: nat)
    requires size > 0 && Index(seek, size) < TWO32
    ensures StartPosition(seek, size) == seek
  {
    assert seek == seek / size * size + seek % size;
  }

  /** The request of a read at descriptor position `seek`. */
  ghost function RequestAt(c: Chain, seek: nat, want: nat): nat
    requires c.Ok() && c.volume.ClusterSize() > 0
  {
    Request(c, Index(seek, c.volume.ClusterSize()) % TWO32, Offset(seek, c.volume.ClusterSize()), want)
  }

  /** What `ReadOp` yields is the slice that was asked for exactly when the request covers the rest of the current cluster, or
      nothing can be read there at all. */
  lemma ReadAnswersRequestIff(c: Chain, seek: nat, want: nat, bytes: seq<Byte>)
    requires c.Ok() && c.volume.ClusterSize() > 0 && Index(seek, c.volume.ClusterSize()) < TWO32
    requires IsSlice(c, StartPosition(seek, c.volume.ClusterSize()), RequestAt(c, seek, want), bytes)
    ensures var size := c.volume.ClusterSize();
      IsSlice(c, seek, want, bytes) <==> want >= Leading(size, Offset(seek, size)) || !c.Readable(Index(seek, size))
  {
    hide Volume.ClusterSize, Chain.Readable, IsSlice, Leading, Request;
    var size := c.volume.ClusterSize();
    StartsAtSeek(seek, size);
    ReadsSliceIff(c, Index(seek, size), Offset(seek, size), seek, want, bytes);
  }

  /** What has been read so far: `done` bytes of the request, standing at the start of cluster `k`. */
  ghost predicate ReadTo(c: Chain, seek: nat, bytes: seq<Byte>, k: nat)
    requires c.Ok()
  {
    Holds(c, seek, bytes) && seek + |bytes| == k * c.volume.ClusterSize()
  }

  lemma ReadPart(c: Chain, seek: nat, bytes: seq<Byte>, k: nat, from: nat, to: nat, after: seq<Byte>)
    requires c.Ok() && Holds(c, seek, bytes) && c.Readable(k) && from <= to <= c.volume.ClusterSize()
    requires seek + |bytes| == k * c.volume.ClusterSize() + from
    requires after == bytes + c.Bytes(k)[from..to]
    ensures Holds(c, seek, after)
  {
    ClusterPartHolds(c, k, from, to, seek + |bytes|);
    HoldsConcat(c, seek, bytes, c.Bytes(k)[from..to]);
  }

  lemma NextBoundary(k: nat, size: nat)
    ensures (k + 1) * size == k * size + size
  {
  }

  lemma ReadToNext(c: Chain, seek: nat, bytes: seq<Byte>, k: nat, after: seq<Byte>)
    requires c.Ok() && ReadTo(c, seek, bytes, k) && c.Readable(k) && after == bytes + c.Bytes(k)
    ensures ReadTo(c, seek, after, k + 1)
  {
    hide Volume.ClusterSize, Chain.Readable, Chain.Bytes, Holds;
    var size := c.volume.ClusterSize();
    assert c.Bytes(k)[0..size] == c.Bytes(k);
    ReadPart(c, seek, bytes, k, 0, size, after);
    NextBoundary(k, size);
  }

  lemma ReadStops(c: Chain, seek: nat, bytes: seq<Byte>, k: nat, from: nat, request: nat)
    requires c.Ok() && Holds(c, seek, bytes) && !c.Readable(k) && from < c.volume.ClusterSize() && |bytes| <= request
    requires seek + |bytes| == k * c.volume.ClusterSize() + from
    ensures IsSlice(c, seek, request, bytes)
  {
    NothingAt(c, k, from, seek + |bytes|);
    assert HasAt(c, seek + |bytes|, 0) == HasAt(c, seek, |bytes|);
  }

  lemma NotReadable(c: Chain, k: nat, cluster: nat)
    requires c.Ok() && c.Nth(k) == cluster && (cluster == INVALID_CLUSTER || c.volume.Cluster(cluster).None?)
    ensures !c.Readable(k)
  {
  }

  lemma NextIs(c: Chain, k: nat, cluster: nat)
    requires c.Ok() && c.Nth(k) == cluster && cluster != INVALID_CLUSTER
    ensures c.volume.Linked(cluster) && c.Nth(k + 1) == c.volume.Next(cluster)
  {
  }

  lemma IsReadable(c: Chain, k: nat, cluster: nat)
    requires c.Ok() && c.Nth(k) == cluster && cluster != INVALID_CLUSTER && c.volume.Cluster(cluster).Some?
    ensures c.Readable(k) && c.Bytes(k) == c.volume.Cluster(cluster).value
    ensures c.volume.Linked(cluster) && c.Nth(k + 1) == c.volume.Next(cluster)
  {
  }

  /** The quantities the reader starts from. */
  lemma BeginsAt(c: Chain, seek: nat, want: nat)
    requires c.Ok() && 0 < c.volume.ClusterSize() < TWO32 && want < TWO32
    ensures var size := c.volume.ClusterSize();
      var k, offset := Index(seek, size) % TWO32, Offset(seek, size);
      var leading := Leading(size, offset);
      && StartPosition(seek, size) == k * size + offset
      && leading == (if offset == 0 then 0 else size - offset)
      && (c.Readable(k) ==> Request(c, k, offset, want) == leading + (want - leading) % TWO32)
      && (leading == 0 ==> Request(c, k, offset, want) == want)
      && (seek == 0 ==> k == 0 && offset == 0)
  {
    hide Volume.ClusterSize, Chain.Readable;
    var size := c.volume.ClusterSize();
    LeadingIs(size, Offset(seek, size));
    if seek == 0 {
      QuotientIsUnique(0, size, 0, 0);
    }
  }

  lemma LeadingFits(c: Chain, seek: nat, want: nat, leading: nat, k: nat)
    requires c.Ok() && 0 < c.volume.ClusterSize() < TWO32 && want < TWO32 && k == Index(seek, c.volume.ClusterSize()) % TWO32
    requires leading == Leading(c.volume.ClusterSize(), Offset(seek, c.volume.ClusterSize())) && leading > 0
    ensures leading < c.volume.ClusterSize()
    ensures RequestAt(c, seek, want) == if c.Readable(k) then leading + (want - leading) % TWO32 else want
    ensures RequestAt(c, seek, want) >= leading || !c.Readable(k)
  {
    BeginsAt(c, seek, want);
    hide Volume.ClusterSize, Chain.Readable, Index, Offset, StartPosition, Chain.Ok;
  }

  /** The rest of the current cluster brings the reader to a cluster boundary. */
  lemma LeadingIsRead(c: Chain, seek: nat, want: nat, leading: nat, k: nat, bytes: seq<Byte>)
    requires c.Ok() && 0 < c.volume.ClusterSize() < TWO32 && want < TWO32 && k == Index(seek, c.volume.ClusterSize()) % TWO32
    requires leading == Leading(c.volume.ClusterSize(), Offset(seek, c.volume.ClusterSize())) && 0 < leading < c.volume.ClusterSize()
    requires c.Readable(k) && bytes == c.Bytes(k)[c.volume.ClusterSize() - leading..c.volume.ClusterSize()]
    ensures ReadTo(c, StartPosition(seek, c.volume.ClusterSize()), bytes, k + 1)
  {
    BeginsAt(c, seek, want);
    hide Volume.ClusterSize, Chain.Readable, Index, Offset, Leading, Request, StartPosition, Holds, Chain.Ok, Chain.Bytes;
    var size := c.volume.ClusterSize();
    assert bytes == [] + bytes;
    ReadPart(c, StartPosition(seek, size), [], k, size - leading, size, bytes);
    NextBoundary(k, size);
  }

  lemma ChainFacts(c: Chain)
    requires c.Ok()
    ensures c.volume.Ok() && c.first < TWO32 && c.volume.ClusterSize() > 0
  {
    ClusterSizePositive(c.volume);
  }

  /** Nothing can be read at the start: the empty slice is the answer. */
  lemma StopsAtOnce(c: Chain, seek: nat, want: nat, none: seq<Byte>)
    requires c.Ok() && 0 < c.volume.ClusterSize() < TWO32 && want < TWO32 && none == []
    requires !c.Readable(Index(seek, c.volume.ClusterSize()) % TWO32)
    ensures IsSlice(c, StartPosition(seek, c.volume.ClusterSize()), RequestAt(c, seek, want), none)
  {
    hide Volume.ClusterSize, Chain.Readable, Index, Offset;
    ReadStops(c, StartPosition(seek, c.volume.ClusterSize()), none, Index(seek, c.volume.ClusterSize()) % TWO32,
              Offset(seek, c.volume.ClusterSize()), RequestAt(c, seek, want));
  }

  /** At a cluster boundary nothing has to be read in front of whole clusters. */
  lemma StartsAligned(c: Chain, seek: nat, none: seq<Byte>)
    requires c.Ok() && c.volume.ClusterSize() > 0 && none == [] && Leading(c.volume.ClusterSize(), Offset(seek, c.volume.ClusterSize())) == 0
    ensures ReadTo(c, StartPosition(seek, c.volume.ClusterSize()), none, Index(seek, c.volume.ClusterSize()) % TWO32)
    ensures forall want :: RequestAt(c, seek, want) == want
  {
    hide Volume.ClusterSize, Index, Offset;
    LeadingIs(c.volume.ClusterSize(), Offset(seek, c.volume.ClusterSize()));
  }

  lemma SeekZero(seek: nat, size: nat)
    requires size > 0
    ensures Leading(size, Offset(seek, size)) < size
    ensures seek == 0 ==> Index(seek, size) % TWO32 == 0 && Leading(size, Offset(seek, size)) == 0
  {
    if seek == 0 {
      QuotientIsUnique(0, size, 0, 0);
      LeadingIs(size, 0);
    }
  }

  lemma FinishSlice(c: Chain, pos: nat, bytes: seq<Byte>, request: nat, k: nat)
    requires c.Ok() && c.volume.ClusterSize() > 0 && Holds(c, pos, bytes) && |bytes| <= request
    requires |bytes| < request ==> !c.Readable(k) && pos + |bytes| == k * c.volume.ClusterSize()
    ensures IsSlice(c, pos, request, bytes)
  {
    if |bytes| < request {
      ReadStops(c, pos, bytes, k, 0, request);
    }
  }

  lemma SliceFits(c: Chain, pos: nat, want: nat, bytes: seq<Byte>)
    requires c.Ok() && IsSlice(c, pos, want, bytes)
    ensures |bytes| <= want
  {
  }

  lemma IndexMonotone(p: nat, q: nat, size: nat)
    requires size > 0 && p <= q
    ensures Index(p, size) <= Index(q, size)
  {
    var d := q / size - p / size;
    assert p == p / size * size + p % size;
    assert q == q / size * size + q % size;
    assert d * size == q / size * size - p / size * size;
  }

  /** The second of two reads asks for what it says: it covers its leading part, or the chain has ended. */
  lemma SecondRequest(c: Chain, pos: nat, m: nat, n: nat, bytes: seq<Byte>)
    requires c.Ok() && c.volume.ClusterSize() > 0 && IsSlice(c, pos, m, bytes) && Index(pos + m, c.volume.ClusterSize()) < TWO32
    requires n >= Leading(c.volume.ClusterSize(), Offset(pos + m, c.volume.ClusterSize()))
    ensures RequestAt(c, pos + |bytes|, n) == n
    ensures StartPosition(pos + |bytes|, c.volume.ClusterSize()) == pos + |bytes|
  {
    hide Volume.ClusterSize, Chain.Readable, Holds, Leading, Index, Offset, StartPosition;
    var size := c.volume.ClusterSize();
    IndexMonotone(pos + |bytes|, pos + m, size);
    StartsAtSeek(pos + |bytes|, size);
  }

  class FileDescriptor {
    const volume: Volume
    const firstCluster: nat
    const isFile: bool
    var seek: nat

    constructor (volume: Volume, firstCluster: nat, isFile: bool)
      ensures this.volume == volume && this.firstCluster == firstCluster && this.isFile == isFile && seek == 0
    {
      this.volume, this.firstCluster, this.isFile, seek := volume, firstCluster, isFile, 0;
    }

    function Start(): Chain {
      Chain(volume, firstCluster)
    }

    /** `Fat32ReadCluster`: sector by sector into the buffer; a failing sector leaves the earlier ones written. */
    method ReadCluster(c: nat, buf: array<Byte>, at: nat) returns (ok: bool)
      requires volume.Ok() && at + volume.ClusterSize() <= buf.Length
      modifies buf
      ensures ok <==> volume.Cluster(c).Some?
      ensures ok ==> buf[at..at + volume.ClusterSize()] == volume.Cluster(c).value
      ensures forall i :: 0 <= i < buf.Length && !(at <= i < at + volume.ClusterSize()) ==> buf[i] == old(buf[i])
    {
      var first := volume.FirstSector(c);
      for i := 0 to volume.sectorsPerCluster
        invariant volume.Sectors(first, i).Some? && |volume.Sectors(first, i).value| == i * SECTOR_SIZE
        invariant buf[at..at + i * SECTOR_SIZE] == volume.Sectors(first, i).value
        invariant forall p :: 0 <= p < buf.Length && !(at <= p < at + i * SECTOR_SIZE) ==> buf[p] == old(buf[p])
      {
        match volume.sector(first + i) {
          case None =>
            SectorsFail(volume, first, i + 1, volume.sectorsPerCluster);
            return false;
          case Some(s) =>
            StoreSector(buf, at + i * SECTOR_SIZE, s);
            assert buf[at..at + (i + 1) * SECTOR_SIZE] == volume.Sectors(first, i).value + s;
        }
      }
      return true;
    }

    /** The skipping loop: `k` steps along the chain, 0 if it ends before that. */
    method Skip(k: nat) returns (cluster: nat)
      requires Start().Ok() && (k > 0 ==> firstCluster != INVALID_CLUSTER)
      ensures cluster == Start().Nth(k)
    {
      cluster := firstCluster;
      for i := 0 to k
        invariant cluster == Start().Nth(i) && (i < k ==> cluster != INVALID_CLUSTER)
      {
        NextIs(Start(), i, cluster);
        cluster := volume.Next(cluster);
        if cluster == INVALID_CLUSTER {
          ChainStaysEnded(Start(), i + 1, k);
          return;
        }
      }
    }

    /** The loop over whole clusters, from cluster `k` of the chain: `left` bytes of the request are still to be read behind
        the `done` bytes already in the buffer. `full` tells whether the loop ran to its end. */
    method ReadWhole(buf: array<Byte>, cluster0: nat, done0: nat, left0: nat, ghost k0: nat, ghost pos: nat)
        returns (cluster: nat, done: nat, left: nat, full: bool, ghost k: nat)
      requires Start().Ok() && cluster0 == Start().Nth(k0) && done0 + left0 <= buf.Length
      requires ReadTo(Start(), pos, buf[..done0], k0)
      modifies buf
      ensures done + left == done0 + left0 && cluster == Start().Nth(k) && ReadTo(Start(), pos, buf[..done], k)
      ensures full ==> left < volume.ClusterSize()
      ensures !full ==> !Start().Readable(k) && left >= volume.ClusterSize()
      ensures forall i :: done + volume.ClusterSize() <= i < buf.Length ==> buf[i] == old(buf[i])
      ensures full ==> forall i :: done <= i < buf.Length ==> buf[i] == old(buf[i])
    {
      ChainFacts(Start());
      hide Volume.ClusterSize, Chain.Readable, ReadTo, Volume.Cluster, Chain.Ok, Volume.Ok, Volume.Linked, Volume.Next, Chain.Nth;
      cluster, done, left, k := cluster0, done0, left0, k0;
      var size := volume.ClusterSize();
      ClusterSizePositive(volume);
      while left >= size
        invariant done + left == done0 + left0 && cluster == Start().Nth(k) && ReadTo(Start(), pos, buf[..done], k)
        invariant forall i :: done <= i < buf.Length ==> buf[i] == old(buf[i])
        decreases left
      {
        ghost var before := buf[..done];
        var ok := false;
        if cluster != INVALID_CLUSTER {
          ok := ReadCluster(cluster, buf, done);
        }
        assert buf[..done] == before;
        if !ok {
          NotReadable(Start(), k, cluster);
          return cluster, done, left, false, k;
        }
        IsReadable(Start(), k, cluster);
        assert buf[..done + size] == before + Start().Bytes(k);
        ReadToNext(Start(), pos, before, k, buf[..done + size]);
        done, left, k := done + size, left - size, k + 1;
        cluster := volume.Next(cluster);
      }
      full := true;
    }

    /** The part in front of the first cluster boundary. */
    method ReadLeading(buf: array<Byte>, cluster: nat, leading: nat, want: nat, ghost k: nat) returns (ok: bool)
      requires Start().Ok() && 0 < volume.ClusterSize() < TWO32 && want < TWO32 && k == Index(seek, volume.ClusterSize()) % TWO32
      requires leading == Leading(volume.ClusterSize(), Offset(seek, volume.ClusterSize())) && leading > 0
      requires cluster == Start().Nth(k) && cluster != INVALID_CLUSTER && RequestAt(Start(), seek, want) <= buf.Length
      modifies buf
      ensures ok <==> Start().Readable(k)
      ensures ok ==> leading <= buf.Length && leading + (want - leading) % TWO32 == RequestAt(Start(), seek, want)
      ensures ok ==> ReadTo(Start(), StartPosition(seek, volume.ClusterSize()), buf[..leading], k + 1)
      ensures !ok ==> unchanged(buf)
      ensures forall i :: leading <= i < buf.Length ==> buf[i] == old(buf[i])
    {
      hide Volume.ClusterSize, Chain.Readable, Index, Offset, Leading, RequestAt, StartPosition, Chain.Ok, Chain.Nth, Chain.Bytes, ReadTo;
      var size := volume.ClusterSize();
      LeadingFits(Start(), seek, want, leading, k);
      ok := ReadInto(buf, 0, cluster, size - leading, size, k);
      if ok {
        LeadingIsRead(Start(), seek, want, leading, k, buf[..leading]);
      }
    }

    /** One cluster read into the scratch buffer, and its bytes `from .. to` copied. */
    method ReadInto(buf: array<Byte>, at: nat, cluster: nat, from: nat, to: nat, ghost k: nat) returns (ok: bool)
      requires Start().Ok() && cluster == Start().Nth(k) && cluster != INVALID_CLUSTER
      requires from <= to <= volume.ClusterSize() && (Start().Readable(k) ==> at + (to - from) <= buf.Length)
      modifies buf
      ensures ok <==> Start().Readable(k)
      ensures ok ==> buf[at..at + (to - from)] == Start().Bytes(k)[from..to]
      ensures !ok ==> unchanged(buf)
      ensures forall i :: 0 <= i < buf.Length && !(at <= i < at + (to - from)) ==> buf[i] == old(buf[i])
    {
      ChainFacts(Start());
      hide Volume.ClusterSize, Chain.Readable, Chain.Ok, Volume.Ok, Volume.Linked, Volume.Next, Chain.Nth, Volume.Cluster, Chain.Bytes;
      var size := volume.ClusterSize();
      var clusterBuf := new Byte[size](_ => 0);
      ok := ReadCluster(cluster, clusterBuf, 0);
      if !ok {
        NotReadable(Start(), k, cluster);
        return;
      }
      IsReadable(Start(), k, cluster);
      assert clusterBuf[..] == Start().Bytes(k);
      StoreSector(buf, at, clusterBuf[from..to]);
    }

    /** The part behind the last whole cluster. */
    method ReadTrailing(buf: array<Byte>, cluster: nat, done: nat, left: nat, ghost k: nat, ghost pos: nat) returns (ok: bool)
      requires Start().Ok() && cluster == Start().Nth(k)
      requires 0 < left < volume.ClusterSize() && done + left <= buf.Length && ReadTo(Start(), pos, buf[..done], k)
      modifies buf
      ensures ok <==> Start().Readable(k)
      ensures ok ==> Holds(Start(), pos, buf[..done + left])
      ensures !ok ==> unchanged(buf)
      ensures forall i :: done + left <= i < buf.Length ==> buf[i] == old(buf[i])
    {
      hide Volume.ClusterSize, Chain.Readable, Chain.Ok, Chain.Nth, Holds, Chain.Bytes;
      ghost var before := buf[..done];
      ok := false;
      if cluster == INVALID_CLUSTER {
        NotReadable(Start(), k, cluster);
        return;
      }
      ok := ReadInto(buf, done, cluster, 0, left, k);
      if ok {
        assert buf[..done + left] == before + Start().Bytes(k)[0..left];
        ReadPart(Start(), pos, before, k, 0, left, buf[..done + left]);
      }
    }

    /** `Fat32ReadOp`. `count` bytes of the buffer are filled with the slice of the chain that starts at the descriptor's position;
        the number returned and the new position follow in 32 and 64 bits. */
    method ReadOp(want: nat, buf: array<Byte>) returns (ret: nat, ghost count: nat)
      requires Start().Ok() && want < TWO32 && seek < TWO64 && (firstCluster != INVALID_CLUSTER || seek == 0)
      requires 0 < volume.ClusterSize() < TWO32 && buf.Length >= RequestAt(Start(), seek, want)
      modifies this, buf
      ensures !isFile ==> ret == 0 && count == 0 && unchanged(this) && unchanged(buf)
      ensures count <= buf.Length
      ensures isFile ==>
        IsSlice(Start(), StartPosition(old(seek), volume.ClusterSize()), RequestAt(Start(), old(seek), want), buf[..count])
      ensures ret == count % TWO32 && seek == (old(seek) + ret) % TWO64
      ensures forall i :: count + volume.ClusterSize() <= i < buf.Length ==> buf[i] == old(buf[i])
    {
      hide Volume.ClusterSize, Chain.Readable, IsSlice, Index, Offset, Request, StartPosition, Holds, Chain.Ok, ReadTo, RequestAt,
           Leading, Chain.Nth, Chain.Has, Volume.Ok, Volume.Linked;
      ret, count := 0, 0;
      if !isFile {
        return;
      }
      ghost var pos, at;
      var go, cluster, done, left;
      go, cluster, done, left, at, pos := ReadToBoundary(want, buf);
      if !go {
        return;
      }
      done := ReadRest(buf, cluster, done, left, at, pos);
      count := done;
      ret := done % TWO32;
      seek := (seek + ret) % TWO64;
    }

    /** Skipping and the leading part: either nothing can be read at the start, or `left` bytes of the request are still to be read
        from the cluster boundary reached behind the `done` bytes in the buffer. */
    method ReadToBoundary(want: nat, buf: array<Byte>)
        returns (go: bool, cluster: nat, done: nat, left: nat, ghost at: nat, ghost pos: nat)
      requires Start().Ok() && want < TWO32 && seek < TWO64 && (firstCluster != INVALID_CLUSTER || seek == 0)
      requires 0 < volume.ClusterSize() < TWO32 && buf.Length >= RequestAt(Start(), seek, want)
      modifies buf
      ensures pos == StartPosition(seek, volume.ClusterSize()) && done <= buf.Length && done < volume.ClusterSize()
      ensures !go ==> done == 0 && IsSlice(Start(), pos, RequestAt(Start(), seek, want), buf[..0])
      ensures go ==> cluster == Start().Nth(at) && done + left == RequestAt(Start(), seek, want) && ReadTo(Start(), pos, buf[..done], at)
      ensures forall i :: done <= i < buf.Length ==> buf[i] == old(buf[i])
    {
      ChainFacts(Start());
      hide Volume.ClusterSize, Chain.Readable, IsSlice, Index, Offset, Leading, Request, StartPosition, Holds, Chain.Ok, Volume.Ok,
           Volume.Linked, Volume.Next, Chain.Nth, ReadTo, RequestAt;
      var size := volume.ClusterSize();
      var leading := Leading(size, Offset(seek, size));
      var k: nat := Index(seek, size) % TWO32;
      pos := StartPosition(seek, size);
      SeekZero(seek, size);
      cluster := Skip(k);
      go, done, left, at := true, 0, want, k;
      if k > 0 && cluster == INVALID_CLUSTER {
        NotReadable(Start(), k, cluster);
        StopsAtOnce(Start(), seek, want, buf[..0]);
        go := false;
        return;
      }
      if leading != 0 {
        go := ReadLeading(buf, cluster, leading, want, k);
        if !go {
          StopsAtOnce(Start(), seek, want, buf[..0]);
          return;
        }
        done, left := leading, (want - leading) % TWO32;
        NextIs(Start(), k, cluster);
        cluster := volume.Next(cluster);
        at := k + 1;
      } else {
        StartsAligned(Start(), seek, buf[..0]);
      }
    }

    /** Whole clusters and the trailing part. */
    method ReadRest(buf: array<Byte>, cluster0: nat, done0: nat, left0: nat, ghost k0: nat, ghost pos: nat) returns (done: nat)
      requires Start().Ok() && cluster0 == Start().Nth(k0) && done0 + left0 <= buf.Length
      requires ReadTo(Start(), pos, buf[..done0], k0)
      modifies buf
      ensures done <= buf.Length && IsSlice(Start(), pos, done0 + left0, buf[..done])
      ensures forall i :: done + volume.ClusterSize() <= i < buf.Length ==> buf[i] == old(buf[i])
    {
      hide Volume.ClusterSize, Chain.Readable, IsSlice;
      ClusterSizePositive(volume);
      var cluster, left, full;
      ghost var k;
      cluster, done, left, full, k := ReadWhole(buf, cluster0, done0, left0, k0, pos);
      if full && left != 0 {
        var ok := ReadTrailing(buf, cluster, done, left, k, pos);
        if ok {
          done := done + left;
        }
      }
      FinishSlice(Start(), pos, buf[..done], done0 + left0, k);
    }

    /** Two reads in a row yield, together, what one read of both lengths yields, and leave the position behind it. */
    method ReadTwice(m: nat, n: nat, first: array<Byte>, second: array<Byte>) returns (a: nat, b: nat)
      requires Start().Ok() && isFile && 0 < volume.ClusterSize() < TWO32 && first != second
      requires m < TWO32 && n < TWO32 && m <= first.Length && n <= second.Length
      requires firstCluster != INVALID_CLUSTER && seek + m + n < TWO64
      requires Index(seek, volume.ClusterSize()) < TWO32 && Index(seek + m, volume.ClusterSize()) < TWO32
      requires m >= Leading(volume.ClusterSize(), Offset(seek, volume.ClusterSize()))
      requires n >= Leading(volume.ClusterSize(), Offset(seek + m, volume.ClusterSize()))
      modifies this, first, second
      ensures a <= first.Length && b <= second.Length && seek == old(seek) + a + b
      ensures IsSlice(Start(), old(seek), m + n, first[..a] + second[..b])
    {
      hide Volume.ClusterSize, Chain.Readable, IsSlice, Index, Offset, Leading, StartPosition;
      ghost var size := volume.ClusterSize();
      ghost var pos := seek;
      StartsAtSeek(seek, size);
      ghost var c1, c2;
      a, c1 := ReadOp(m, first);
      SliceFits(Start(), pos, m, first[..c1]);
      assert seek == pos + a;
      SecondRequest(Start(), pos, m, n, first[..c1]);
      b, c2 := ReadOp(n, second);
      SliceFits(Start(), pos + a, n, second[..c2]);
      SlicesCompose(Start(), pos, m, n, first[..c1], second[..c2]);
    }

    /** Reading in two parts or at once, from the same position: the same bytes, the same count and the same final position. */
    method ReadBothWays(m: nat, n: nat, first: array<Byte>, second: array<Byte>, whole: array<Byte>) returns (a: nat, b: nat, c: nat)
      requires Start().Ok() && isFile && 0 < volume.ClusterSize() < TWO32 && first != second && whole != first && whole != second
      requires m + n < TWO32 && m <= first.Length && n <= second.Length && m + n <= whole.Length
      requires firstCluster != INVALID_CLUSTER && seek + m + n < TWO64
      requires Index(seek, volume.ClusterSize()) < TWO32 && Index(seek + m, volume.ClusterSize()) < TWO32
      requires m >= Leading(volume.ClusterSize(), Offset(seek, volume.ClusterSize()))
      requires n >= Leading(volume.ClusterSize(), Offset(seek + m, volume.ClusterSize()))
      modifies this, first, second, whole
      ensures a <= first.Length && b <= second.Length && c <= whole.Length
      ensures c == a + b && whole[..c] == first[..a] + second[..b] && seek == old(seek) + c
    {
      hide Volume.ClusterSize, Chain.Readable, IsSlice, Index, Offset, Leading, StartPosition, Chain.Ok;
      var start := seek;
      a, b := ReadTwice(m, n, first, second);
      seek := start;
      StartsAtSeek(start, volume.ClusterSize());
      ghost var count;
      c, count := ReadOp(m + n, whole);
      SliceFits(Start(), start, m + n, whole[..count]);
      SliceIsUnique(Start(), start, m + n, whole[..count], first[..a] + second[..b]);
    }

    static method StoreSector(buf: array<Byte>, at: nat, s: seq<Byte>)
      requires at + |s| <= buf.Length
      modifies buf
      ensures forall p :: 0 <= p < buf.Length ==> buf[p] == if at <= p < at + |s| then s[p - at] else old(buf[p])
    {
      forall i | 0 <= i < |s| {
        buf[at + i] := s[i];
      }
    }
  }

  lemma {:induction false} SectorsFail(v: Volume, first: nat, i: nat, n: nat)
    requires i <= n && v.Sectors(first, i).None?
    ensures v.Sectors(first, n).None?
  {
    if i < n {
      SectorsFail(v, first, i, n - 1);
    }
  }
}
