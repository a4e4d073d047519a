/** The kernel side (driver/psvemmc.c): its own cluster pool, and the read and write functions. */
module DriverModule {
  import opened Words
  import opened Wire
  import opened Pools
  import opened Protocol
  import opened Memory

  class Driver {
    const platform: Platform
    const pool: ClusterPool

    constructor (platform: Platform)
      ensures this.platform == platform && fresh(pool) && fresh(pool.clusterPool) && pool.Value() == DOWN
    {
      this.platform := platform;
      var p := new ClusterPool();
      pool := p;
    }

    method ReadSector(dev: Device, sector: int32, env: Env, buffer: array<byte>) returns (code: int32)
      requires buffer.Length == SECTOR
      modifies buffer
      ensures code == ReadSectorCode(platform, dev, env)
      ensures buffer[..] == if code == 0 then platform.disk(dev, sector) else old(buffer[..])
    {
      if dev !in platform.ready { return -1; }
      if env.read < 0 { return env.read; }
      var bufferKernel: Sector := platform.disk(dev, sector);
      if env.copy < 0 { return env.copy; }
      Store(buffer, 0, bufferKernel);
      code := 0;
    }

    /** The cluster goes into the driver's pool and is copied out to the caller's, which is a block of its own
        only while that pool is up. */
    method ReadCluster(dev: Device, cluster: int32, env: Env, buffer: ClusterPool) returns (code: int32)
      requires PoolOk(pool.Value()) && PoolOk(buffer.Value())
      requires pool != buffer && pool.clusterPool != buffer.clusterPool
      modifies pool.clusterPool, buffer.clusterPool
      ensures var c := ReadClusterStep(platform, State(old(buffer.Value()), old(pool.Value())), dev, cluster, env);
              code == c.code && buffer.Value() == c.st.server && pool.Value() == c.st.driver
    {
      if dev !in platform.ready { return -1; }
      if !pool.clusterPoolInitialized { return -2; }
      if env.read < 0 { return env.read; }
      var data := Sectors(platform, dev, I32(pool.sectorsPerCluster * cluster), SectorCount(pool.Value()));
      pool.Load(data);
      if env.copy < 0 { return env.copy; }
      buffer.Load(pool.clusterPool[..]);
      code := 0;
    }

    method WriteSector(dev: Device) returns (code: int32)
      ensures code == WriteSectorCode(platform, dev) < 0
    {
      if dev !in platform.ready { return -1; }
      code := -2;
    }

    method WriteCluster(dev: Device) returns (code: int32)
      ensures forall s: Pool :: code == WriteClusterCode(platform, State(s, pool.Value()), dev) < 0
    {
      if dev !in platform.ready { return -1; }
      if !pool.clusterPoolInitialized { return -2; }
      code := -3;
    }
  }
}
