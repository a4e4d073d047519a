/** How dump_partition cuts a partition into clusters and a tail of sectors (client/psvemmc/psvemmc.cpp:472-507),
    in the 32-bit arithmetic it uses. */
module DumpPlan {
  import opened Words
  import opened Wire

  const SECTORS_PER_CLUSTER: int32 := 8

  function Clusters(size: uint32): nat { size / SECTORS_PER_CLUSTER }
  function Tail(size: uint32): nat { size % SECTORS_PER_CLUSTER }
  function ClusterOffset(offset: uint32): int32 { I32(offset / SECTORS_PER_CLUSTER) }
  function TailOffset(offset: uint32, size: uint32): int32 {
    I32(U32(offset + U32(I32(Clusters(size) * SECTORS_PER_CLUSTER))))
  }

  /** The cluster, and the sector, asked for in round i of the two loops. */
  function ClusterArg(offset: uint32, i: nat): int32 { I32(ClusterOffset(offset) + i) }
  function SectorArg(offset: uint32, size: uint32, i: nat): int32 { I32(TailOffset(offset, size) + i) }

  /** The sector the driver starts a cluster at. */
  function FirstSector(cluster: int32): int32 { I32(SECTORS_PER_CLUSTER * cluster) }

  /** The k-th sector that is read. */
  function SectorRead(offset: uint32, size: uint32, k: nat): int {
    if k < 8 * Clusters(size) then FirstSector(ClusterArg(offset, k / 8)) + k % 8
    else SectorArg(offset, size, k - 8 * Clusters(size))
  }

  /** The sectors read, in order, and the sectors of the partition. */
  function SectorsRead(offset: uint32, size: uint32): seq<int> {
    seq(size, k requires 0 <= k => SectorRead(offset, size, k))
  }

  function SectorsOf(offset: uint32, size: uint32): seq<int> {
    seq(size, k requires 0 <= k => offset + k)
  }

  /** What a caller can check beforehand: the partition is empty, or it ends within the first 2^31 sectors and
      starts on a cluster boundary unless it is smaller than a cluster. */
  predicate Splittable(offset: uint32, size: uint32) {
    size == 0 || (offset + size <= 0x8000_0000 && (offset % 8 == 0 || size < 8))
  }

  /** The sectors read are the partition's sectors, in order, each once, exactly for these partitions. */
  lemma SplitExactly(offset: uint32, size: uint32)
    ensures SectorsRead(offset, size) == SectorsOf(offset, size) <==> Splittable(offset, size)
  {
    if Splittable(offset, size) {
      forall k: nat | k < size
        ensures SectorsRead(offset, size)[k] == offset + k
      {
        SplitAt(offset, size, k);
      }
    } else if offset + size > 0x8000_0000 {
      assert SectorsOf(offset, size)[size - 1] == offset + (size - 1);
      BelowLimit(offset, size, size - 1);
      assert SectorsRead(offset, size)[size - 1] == SectorRead(offset, size, size - 1);
    } else {
      assert SectorsOf(offset, size)[0] == offset;
      assert SectorsRead(offset, size)[0] == SectorRead(offset, size, 0);
      Unaligned(offset, size);
    }
  }

  lemma SplitAt(offset: uint32, size: uint32, k: nat)
    requires Splittable(offset, size) && k < size
    ensures SectorRead(offset, size, k) == offset + k
  {
    if k < 8 * Clusters(size) {
      ClusterInRange(offset, size, k / 8);
    } else {
      TailInRange(offset, size, k - 8 * Clusters(size));
    }
  }

  lemma BelowLimit(offset: uint32, size: uint32, k: nat)
    ensures SectorRead(offset, size, k) < 0x8000_0000
  {
    MultipleOfEight(ClusterArg(offset, k / 8));
  }

  /** 2^31 and 2^32 are multiples of 8, so wrapping keeps a multiple of 8 one. */
  lemma MultipleOfEight(c: int32)
    ensures FirstSector(c) % 8 == 0
  {
    var v := SECTORS_PER_CLUSTER * c + 0x8000_0000;
    assert v == 8 * (c + 0x1000_0000);
    var q := v / 0x1_0000_0000;
    assert v % 0x1_0000_0000 == v - q * 0x1_0000_0000;
    assert FirstSector(c) == 8 * (c - q * 0x2000_0000);
  }

  lemma Unaligned(offset: uint32, size: uint32)
    requires size >= 8 && offset % 8 != 0
    ensures SectorRead(offset, size, 0) != offset
  {
    MultipleOfEight(ClusterArg(offset, 0));
  }

  /** Within the limit no value leaves the signed 32-bit range: the cluster and its first sector ... */
  lemma ClusterInRange(offset: uint32, size: uint32, i: nat)
    requires offset + size <= 0x8000_0000 && i < Clusters(size)
    ensures ClusterArg(offset, i) == offset / 8 + i
    ensures FirstSector(ClusterArg(offset, i)) == 8 * (offset / 8 + i)
  {
    hide I32;
    assert 8 * (offset / 8) <= offset && 8 * (i + 1) <= size;
    InRange(offset / 8);
    InRange(offset / 8 + i);
    InRange(8 * (offset / 8 + i));
  }

  /** ... and the tail sector. (A tail offset of 2^31 does wrap, but then there is no tail.) */
  lemma TailInRange(offset: uint32, size: uint32, i: nat)
    requires offset + size <= 0x8000_0000 && i < Tail(size)
    ensures SectorArg(offset, size, i) == offset + 8 * Clusters(size) + i
  {
    hide I32, U32;
    var n := 8 * Clusters(size);
    assert n + i < size;
    InRange(n);
    InRange(offset + n);
    InRange(offset + n + i);
  }

  // ---------- the requests of a dump ----------

  function ClusterReads(dev: Device, offset: uint32, n: nat): (rs: seq<Request>)
    ensures |rs| == n
  {
    if n == 0 then [] else ClusterReads(dev, offset, n - 1) + [ReadCluster(dev, ClusterArg(offset, n - 1))]
  }

  function SectorReads(dev: Device, offset: uint32, size: uint32, n: nat): (rs: seq<Request>)
    ensures |rs| == n
  {
    if n == 0 then [] else SectorReads(dev, offset, size, n - 1) + [ReadSector(dev, SectorArg(offset, size, n - 1))]
  }

  const INIT := Init(SECTOR, SECTORS_PER_CLUSTER)

  /** The requests of a dump up to its last read; a DEINIT follows. */
  function DumpRequests(dev: Device, offset: uint32, size: uint32): seq<Request> {
    [INIT] + ClusterReads(dev, offset, Clusters(size)) + SectorReads(dev, offset, size, Tail(size))
  }
}
