/** The two cluster pools over whole runs: when they agree, exactly how they come apart, and how to recover. */
module PoolInvariant {
  import opened Words
  import opened Wire
  import opened Pools
  import opened Protocol
  import opened Sessions

  predicate SameGeometry(p: Pool, q: Pool) {
    p.bytesPerSector == q.bytesPerSector && p.sectorsPerCluster == q.sectorsPerCluster
  }

  /** If the driver's pool is up, so is the server's, with the same geometry. */
  predicate PoolInv(st: State) {
    StateOk(st) && (st.driver.up ==> st.server.up && SameGeometry(st.server, st.driver))
  }

  /** One request breaks the agreement if and only if it is a DEINIT on which the driver's free fails and the
      server's succeeds. */
  lemma InvBreaksExactly(pf: Platform, st: State, r: Request, env: Env)
    requires PoolInv(st)
    ensures PoolInv(Serve(pf, st, r, env).st)
        <==> !(r.Deinit? && st.driver.up && env.driverFree < 0 && env.serverFree >= 0)
  {
    ServeKeepsStateOk(pf, st, r, env);
  }

  /** The driver's free does not fail while its pool is up. */
  predicate DriverFrees(envs: seq<Env>) { forall k :: 0 <= k < |envs| ==> envs[k].driverFree >= 0 }

  /** Over every sequence of commands, allocation failures, disconnects and reconnects. */
  lemma {:induction false} InvRun(pf: Platform, st: State, reqs: seq<Request>, envs: seq<Env>)
    requires PoolInv(st) && |reqs| <= |envs| && DriverFrees(envs)
    ensures PoolInv(After(pf, st, reqs, envs))
  {
    if reqs != [] {
      var n := |reqs| - 1;
      InvRun(pf, st, reqs[..n], envs);
      InvBreaksExactly(pf, After(pf, st, reqs[..n], envs), reqs[n], envs[n]);
    }
  }

  /** Every state reached from the start-up state, as long as the driver's frees succeed. */
  lemma InvFromStart(pf: Platform, reqs: seq<Request>, envs: seq<Env>)
    requires |reqs| <= |envs| && DriverFrees(envs)
    ensures PoolInv(After(pf, State(DOWN, DOWN), reqs, envs))
  {
    InvRun(pf, State(DOWN, DOWN), reqs, envs);
  }

  /** A connection keeps the agreement however it ends, in the middle of a cluster write, too. */
  lemma SessionKeepsInv(pf: Platform, st0: State, reqs: seq<Request>, envs: seq<Env>, session: Session,
                        st: State, emitted: seq<byte>)
    requires PoolInv(st0) && DriverFrees(envs) && Serves(pf, st0, reqs, envs, session, st, emitted)
    ensures PoolInv(st)
  {
    hide Serve, Replies, AbortReply;
    InvRun(pf, st0, session.log, envs);
  }

  lemma ConductedKeepsInv(pf: Platform, st0: State, reqs: seq<Request>, envs: seq<Env>, tail: seq<byte>,
                          incoming: seq<byte>, script: seq<int>, out0: seq<byte>, session: Session, st: State,
                          out: seq<byte>)
    requires PoolInv(st0) && DriverFrees(envs)
    requires Conducted(pf, st0, reqs, envs, tail, incoming, script, out0, session, st, out)
    ensures PoolInv(st)
  {
    hide Serves, Arrived, Complete, PoolInv, DriverFrees;
    SessionKeepsInv(pf, st0, reqs, envs, session, st, out[|out0|..]);
  }

  /** What the invariant is for: a cluster the driver delivers exactly fills the server's pool, and, for a geometry of
      no negative number of sectors, is the cluster's sectors if and only if the pools have room for them. */
  lemma ClusterFillsPool(pf: Platform, st: State, dev: Device, cluster: int32, env: Env)
    requires PoolInv(st) && ReadClusterStep(pf, st, dev, cluster, env).code == 0
    ensures st.server.up && |st.driver.mem| == |st.server.mem| == ClusterBytes(st.server)
    ensures var n := st.server.sectorsPerCluster;
            n >= 0 ==> (ReadClusterStep(pf, st, dev, cluster, env).st.server.mem
                        == Sectors(pf, dev, I32(n * cluster), n)
                        <==> HasRoom(SECTOR, n))
  {
    assert st.driver.up;
    var n := st.server.sectorsPerCluster;
    RoomExactly(st.server);
    if n >= 0 {
      var data := Sectors(pf, dev, I32(n * cluster), n);
      assert ReadClusterStep(pf, st, dev, cluster, env).st.server.mem
          == (if |data| <= |st.driver.mem| then data + st.driver.mem[|data|..] else data[..|st.driver.mem|]);
    }
  }

  /** Without room: the geometry is not checked, and the size of the blocks wraps. Here both pools go up with blocks of
      0x1000 bytes for clusters of 0x800008 sectors, so the next cluster read overruns them. */
  lemma WrappedGeometry(pf: Platform, env: Env)
    requires Healthy(env)
    ensures var st := Serve(pf, State(DOWN, DOWN), Init(SECTOR, 0x80_0008), env).st;
            && PoolInv(st) && st.server.up && st.driver.up
            && |st.server.mem| == |st.driver.mem| == 0x1000 < SECTOR * SectorCount(st.driver)
  {
    assert SECTOR * 0x80_0008 == 0x1_0000_1000;
    assert I32(SECTOR * 0x80_0008) == 0x1000;
  }

  // ---------- recovery ----------

  /** No allocation and no free fails. */
  predicate Healthy(env: Env) {
    env.serverAlloc >= 0 && env.serverBase >= 0 && env.driverAlloc >= 0 && env.driverBase >= 0
    && env.serverFree >= 0 && env.driverFree >= 0
  }

  predicate BothUp(st: State, sectorsPerCluster: int32) {
    && st.server.up && st.server.bytesPerSector == SECTOR && st.server.sectorsPerCluster == sectorsPerCluster
    && st.driver.up && SameGeometry(st.server, st.driver)
  }

  /** DEINIT, reconnecting if it is refused, then INIT. */
  function Round(pf: Platform, st: State, sectorsPerCluster: int32, e: Env, f: Env): State {
    After(pf, st, [Deinit, Init(SECTOR, sectorsPerCluster)], [e, f])
  }

  lemma RoundIsRun(pf: Platform, st: State, sectorsPerCluster: int32, e: Env, f: Env)
    ensures Round(pf, st, sectorsPerCluster, e, f)
         == Serve(pf, Serve(pf, st, Deinit, e).st, Init(SECTOR, sectorsPerCluster), f).st
  {
    var rs := [Deinit, Init(SECTOR, sectorsPerCluster)];
    assert rs[..1] == [Deinit] && rs[..1][..0] == [];
    assert After(pf, st, rs[..1], [e, f]) == Serve(pf, st, Deinit, e).st;
  }

  /** One round recovers from any state in which no driver pool is left behind by a server that is down; from the
      others, if and only if the driver happens to have the requested geometry. */
  lemma RecoversExactly(pf: Platform, st: State, sectorsPerCluster: int32, e: Env, f: Env)
    requires StateOk(st) && Healthy(e) && Healthy(f) && Grantable(SECTOR, sectorsPerCluster)
    ensures BothUp(Round(pf, st, sectorsPerCluster, e, f), sectorsPerCluster)
        <==> (st.driver.up && !st.server.up ==> st.driver.sectorsPerCluster == sectorsPerCluster)
  {
    hide After, Round;
    RoundIsRun(pf, st, sectorsPerCluster, e, f);
  }

  /** So it recovers from every state the invariant allows ... */
  lemma RecoversFromInv(pf: Platform, st: State, sectorsPerCluster: int32, e: Env, f: Env)
    requires PoolInv(st) && Healthy(e) && Healthy(f) && Grantable(SECTOR, sectorsPerCluster)
    ensures BothUp(Round(pf, st, sectorsPerCluster, e, f), sectorsPerCluster)
    ensures PoolInv(Round(pf, st, sectorsPerCluster, e, f))
  {
    hide After, Round;
    RoundIsRun(pf, st, sectorsPerCluster, e, f);
    RecoversExactly(pf, st, sectorsPerCluster, e, f);
    InvBreaksExactly(pf, st, Deinit, e);
    InvBreaksExactly(pf, Serve(pf, st, Deinit, e).st, Init(SECTOR, sectorsPerCluster), f);
  }

  /** ... and a second round recovers from every state whatever, the ones a failed free has split included. */
  lemma TwoRoundsRecover(pf: Platform, st: State, sectorsPerCluster: int32, e: Env, f: Env, g: Env, h: Env)
    requires StateOk(st) && Grantable(SECTOR, sectorsPerCluster)
    requires Healthy(e) && Healthy(f) && Healthy(g) && Healthy(h)
    ensures var once := Round(pf, st, sectorsPerCluster, e, f);
            && BothUp(Round(pf, once, sectorsPerCluster, g, h), sectorsPerCluster)
            && PoolInv(Round(pf, once, sectorsPerCluster, g, h))
  {
    hide After, Round;
    RoundIsRun(pf, st, sectorsPerCluster, e, f);
    var once := Round(pf, st, sectorsPerCluster, e, f);
    RoundIsRun(pf, once, sectorsPerCluster, g, h);
    ServeKeepsStateOk(pf, st, Deinit, e);
    ServeKeepsStateOk(pf, Serve(pf, st, Deinit, e).st, Init(SECTOR, sectorsPerCluster), f);
    assert once.server.up;
    RecoversExactly(pf, once, sectorsPerCluster, g, h);
    ServeKeepsStateOk(pf, once, Deinit, g);
    ServeKeepsStateOk(pf, Serve(pf, once, Deinit, g).st, Init(SECTOR, sectorsPerCluster), h);
  }
}
