/** The cluster pool. The server (server/src/main.c:410-458) and the driver (driver/psvemmc.c:48-100) each keep
    one, with the same code. */
module Pools {
  import opened Words
  import opened Memory
  import opened Wire

  /** A pool's geometry is set before the memory is asked for, and stays when the pool goes down. */
  datatype Pool = Pool(up: bool, bytesPerSector: int32, sectorsPerCluster: int32, mem: seq<byte>)

  const DOWN := Pool(false, 0, 0, [])

  /** g_bytesPerSector * g_sectorsPerCluster in 32 bits. */
  function ClusterBytes(p: Pool): int32 { I32(p.bytesPerSector * p.sectorsPerCluster) }

  /** What the kernel can hand out: a block of a size that is a non-negative 32-bit int. It sees the size after it
      has wrapped. */
  predicate Grantable(bytesPerSector: int32, sectorsPerCluster: int32) {
    0 <= I32(bytesPerSector * sectorsPerCluster)
  }

  /** A pool that is up has sectors of 0x200 bytes and a block of the size that was asked for. */
  predicate PoolOk(p: Pool) {
    if p.up then p.bytesPerSector == SECTOR && |p.mem| == ClusterBytes(p) else p.mem == []
  }

  /** The block has room for a cluster: the size did not wrap. */
  predicate HasRoom(bytesPerSector: int32, sectorsPerCluster: int32) {
    0 <= bytesPerSector * sectorsPerCluster < 0x8000_0000
  }

  /** A pool that is up holds a cluster of its geometry, to the byte, if and only if the size did not wrap; otherwise a
      cluster of a positive number of sectors overruns it. */
  lemma RoomExactly(p: Pool)
    requires PoolOk(p) && p.up
    ensures |p.mem| == p.bytesPerSector * p.sectorsPerCluster <==> HasRoom(p.bytesPerSector, p.sectorsPerCluster)
    ensures !HasRoom(p.bytesPerSector, p.sectorsPerCluster) && p.sectorsPerCluster >= 0
            ==> |p.mem| < p.bytesPerSector * p.sectorsPerCluster
  {
  }

  /** The first n bytes of memory whose contents nothing is known about. */
  function Contents(n: nat, junk: nat -> byte): (m: seq<byte>)
    ensures |m| == n
  {
    seq<byte>(n, i requires 0 <= i < n => junk(i))
  }

  datatype Outcome = Outcome(code: int32, pool: Pool)

  /** initializePool and psvemmcInitialize; alloc and base are the kernel's answers, junk what a new block holds. */
  function Initialized(p: Pool, bytesPerSector: int32, sectorsPerCluster: int32,
                       alloc: int32, base: int32, junk: nat -> byte): Outcome {
    if p.up then Outcome(-1, p)
    else if bytesPerSector != SECTOR then Outcome(-2, p)
    else
      var q := Pool(false, bytesPerSector, sectorsPerCluster, p.mem);
      if alloc < 0 then Outcome(alloc, q)
      else if !Grantable(bytesPerSector, sectorsPerCluster) then Outcome(-1, q)
      else if base < 0 then Outcome(base, q)
      else Outcome(0, Pool(true, bytesPerSector, sectorsPerCluster,
                           Contents(I32(bytesPerSector * sectorsPerCluster), junk)))
  }

  /** deinitializePool and psvemmcDeinitialize; free is the kernel's answer. */
  function Deinitialized(p: Pool, free: int32): Outcome {
    if !p.up then Outcome(-1, p)
    else if free < 0 then Outcome(free, p)
    else Outcome(0, p.(up := false, mem := []))
  }

  /** A pool after data has been written over the start of its block; of freed memory nothing is remembered. */
  function Loaded(p: Pool, data: seq<byte>): Pool { p.(mem := Overlay(p.mem, data)) }

  class ClusterPool {
    var clusterPoolInitialized: bool
    var bytesPerSector: int32
    var sectorsPerCluster: int32
    var clusterPool: array<byte>

    function Value(): Pool
      reads this, clusterPool
    {
      Pool(clusterPoolInitialized, bytesPerSector, sectorsPerCluster,
           if clusterPoolInitialized then clusterPool[..] else [])
    }

    constructor ()
      ensures Value() == DOWN && fresh(clusterPool)
    {
      clusterPoolInitialized, bytesPerSector, sectorsPerCluster := false, 0, 0;
      clusterPool := new byte[0];
    }

    method Initialize(bytesPerSector: int32, sectorsPerCluster: int32, alloc: int32, base: int32, junk: nat -> byte)
      returns (code: int32)
      requires PoolOk(Value())
      modifies this
      ensures Outcome(code, Value())
           == Initialized(old(Value()), bytesPerSector, sectorsPerCluster, alloc, base, junk)
      ensures PoolOk(Value()) && (clusterPool == old(clusterPool) || fresh(clusterPool))
    {
      if clusterPoolInitialized { return -1; }
      if bytesPerSector != SECTOR { return -2; }
      this.bytesPerSector := bytesPerSector;
      this.sectorsPerCluster := sectorsPerCluster;
      if alloc < 0 { return alloc; }
      if !Grantable(bytesPerSector, sectorsPerCluster) { return -1; }
      if base < 0 { return base; }
      var size: nat := I32(bytesPerSector * sectorsPerCluster);
      clusterPool := new byte[size](i requires 0 <= i => junk(i));
      assert clusterPool[..] == Contents(size, junk);
      clusterPoolInitialized := true;
      code := 0;
    }

    method Deinitialize(free: int32) returns (code: int32)
      requires PoolOk(Value())
      modifies this
      ensures Outcome(code, Value()) == Deinitialized(old(Value()), free)
      ensures PoolOk(Value()) && clusterPool == old(clusterPool)
    {
      if !clusterPoolInitialized { return -1; }
      if free < 0 { return free; }
      clusterPoolInitialized := false;
      code := 0;
    }

    /** Write a piece through the pool's pointer. */
    method Receive(at: nat, data: seq<byte>)
      requires clusterPoolInitialized ==> at + |data| <= clusterPool.Length
      modifies clusterPool
      ensures Value() == if clusterPoolInitialized then old(Value()).(mem := Patched(old(Value()).mem, at, data))
                         else old(Value())
    {
      if clusterPoolInitialized {
        Store(clusterPool, at, data);
      }
    }

    /** Write the next piece after the data received into pool p so far. */
    method Continue(ghost p: Pool, ghost data: seq<byte>, at: nat, piece: seq<byte>)
      requires PoolOk(p) && Value() == Loaded(p, data) && at == |data|
      requires p.up ==> at + |piece| <= |p.mem|
      modifies clusterPool
      ensures Value() == Loaded(p, data + piece) && PoolOk(Value())
    {
      if p.up { OverlayGrow(p.mem, data, piece); }
      Receive(at, piece);
    }

    /** Write data through the pool's pointer from the start of the block. */
    method Load(data: seq<byte>)
      modifies clusterPool
      ensures Value() == Loaded(old(Value()), data)
    {
      OverlayPatched(Value().mem, data);
      if clusterPoolInitialized {
        Receive(0, if |data| <= clusterPool.Length then data else data[..clusterPool.Length]);
      }
    }
  }
}
