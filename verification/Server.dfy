/** The proxy server (server/src/main.c): one handler per command, the command loop, and the accept loop. */
module ServerModule {
  import opened Words
  import opened Memory
  import opened Wire
  import opened Pools
  import opened Protocol
  import opened Sockets
  import opened Sessions
  import opened DriverModule
  import opened PoolInvariant

  lemma Regroup(a: seq<byte>, b: seq<byte>, c: seq<byte>)
    ensures a + (b + c) == (a + b) + c
  {
  }

  lemma LoadedNone(p: Pool)
    ensures Loaded(p, []) == p
  {
    OverlayNone(p.mem);
  }

  /** A cluster read does not change the server's geometry. */
  lemma ReadClusterGeometry(pf: Platform, st: Protocol.State, dev: Device, cluster: int32, env: Env)
    ensures ClusterBytes(ReadClusterStep(pf, st, dev, cluster, env).st.server) == ClusterBytes(st.server)
  {
  }

  /** A pool that is up holds as many bytes as its geometry says. */
  lemma PoolBytes(p: Pool)
    requires PoolOk(p)
    ensures p.up ==> ClusterBytes(p) == |p.mem|
  {
  }

  /** INIT is refused while the pool is up. */
  lemma InitWhileUp(pf: Platform, st: Protocol.State, r: Request, env: Env)
    requires r.Init? && st.server.up
    ensures Serve(pf, st, r, env) == Served(st, Header(2, -2, 0), true)
  {
  }

  lemma InitBody(r: Request, body: seq<byte>)
    requires r.Init? && body == Body(r)
    ensures I32(FromLe32(body[..4])) == r.bytesPerSector && I32(FromLe32(body[4..])) == r.sectorsPerCluster
  {
    assert body[..4] == Le32(r.bytesPerSector) && body[4..] == Le32(r.sectorsPerCluster);
    WordBody(r.bytesPerSector, body[..4]);
    WordBody(r.sectorsPerCluster, body[4..]);
  }

  lemma WordBody(v: int32, body: seq<byte>)
    requires body == Le32(v)
    ensures I32(FromLe32(body)) == v
  {
    Le32RoundTrip(v);
    WordsAgree(v);
  }

  class Server {
    const driver: Driver
    const pool: ClusterPool
    var cliSock: Socket

    function State(): Protocol.State
      reads this, pool, pool.clusterPool, driver.pool, driver.pool.clusterPool
    {
      Protocol.State(pool.Value(), driver.pool.Value())
    }

    ghost predicate Valid()
      reads this, pool, pool.clusterPool, driver.pool, driver.pool.clusterPool
    {
      && pool != driver.pool && pool.clusterPool != driver.pool.clusterPool
      && StateOk(State())
    }

    ghost function Repr(): set<object>
      reads this, pool, driver.pool
    {
      {cliSock, pool, pool.clusterPool, driver.pool, driver.pool.clusterPool}
    }

    /** Each pool's block is the one it had, or a new one. */
    twostate predicate PoolsMoved(was: array<byte>, driverWas: array<byte>)
      reads this, pool, driver.pool
    {
      (pool.clusterPool == was || fresh(pool.clusterPool))
      && (driver.pool.clusterPool == driverWas || fresh(driver.pool.clusterPool))
    }

    constructor (platform: Platform, sock: Socket)
      ensures Valid() && State() == Protocol.State(DOWN, DOWN) && driver.platform == platform && cliSock == sock
    {
      var d := new Driver(platform);
      var p := new ClusterPool();
      driver, pool, cliSock := d, p, sock;
    }

    /** handle_command_0 and handle_command_1. */
    method HandleGreeting(command: int, env: Env, ghost r: Request, ghost rest: seq<byte>) returns (rc: int)
      requires Valid() && (r.Ping? || r.Terminate?) && command == Code(r) && cliSock.incoming <= Body(r) + rest
      modifies cliSock
      ensures Valid() && State() == old(State())
      ensures Handled(driver.platform, r, rest, env, old(State()), old(cliSock.outgoing),
                      State(), cliSock.incoming, cliSock.outgoing, cliSock.live, rc, false, [])
      ensures var sv := Serve(driver.platform, old(State()), r, env);
              Smooth(r, sv, rest, old(cliSock.incoming), old(cliSock.script), old(cliSock.live)) ==>
                Answered(r, sv, rest, old(cliSock.script),
                         cliSock.incoming, cliSock.script, cliSock.live, rc, false)
    {
      assert Body(r) + rest == rest;
      rc := cliSock.SendSmall(Header(command, 0, 0) + GREETING);
    }

    /** The second half of handle_command_2: both pools, and the response. */
    method StartPools(bytesPerSector: int32, sectorsPerCluster: int32, env: Env) returns (rc: int)
      requires Valid() && !pool.clusterPoolInitialized
      modifies Repr()
      ensures Valid() && cliSock == old(cliSock) && PoolsMoved(old(pool.clusterPool), old(driver.pool.clusterPool))
      ensures cliSock.incoming == old(cliSock.incoming)
      ensures var sv := Serve(driver.platform, old(State()), Init(bytesPerSector, sectorsPerCluster), env);
              && State() == sv.st && !sv.closes
              && old(cliSock.outgoing) <= cliSock.outgoing <= old(cliSock.outgoing) + sv.reply
              && (rc >= 0 && cliSock.live ==> cliSock.outgoing == old(cliSock.outgoing) + sv.reply)
              && (old(cliSock.live) && Generous(old(cliSock.script), 1) ==>
                    cliSock.live && rc >= 0 && Generous(cliSock.script, |old(cliSock.script)| - 1))
    {
      hide Header, I32, Initialized, Overlay, Loaded, Le32, Grantable;
      var vitaErr := pool.Initialize(bytesPerSector, sectorsPerCluster, env.serverAlloc, env.serverBase, env.junk);
      if vitaErr != 0 {
        rc := cliSock.SendSmall(Header(2, vitaErr, 0));
        return;
      }
      var proxyErr := driver.pool.Initialize(bytesPerSector, sectorsPerCluster, env.driverAlloc, env.driverBase,
                                             env.junk);
      rc := cliSock.SendSmall(Header(2, 0, proxyErr));
    }

    /** handle_command_2. */
    method HandleInit(env: Env, ghost r: Request, ghost rest: seq<byte>) returns (rc: int, ghost aborted: bool)
      requires Valid() && r.Init? && cliSock.incoming <= Body(r) + rest
      modifies Repr()
      ensures Valid() && cliSock == old(cliSock) && PoolsMoved(old(pool.clusterPool), old(driver.pool.clusterPool))
      ensures Handled(driver.platform, r, rest, env, old(State()), old(cliSock.outgoing),
                      State(), cliSock.incoming, cliSock.outgoing, cliSock.live, rc, aborted, [])
      ensures var sv := Serve(driver.platform, old(State()), r, env);
              Smooth(r, sv, rest, old(cliSock.incoming), old(cliSock.script), old(cliSock.live)) ==>
                Answered(r, sv, rest, old(cliSock.script),
                         cliSock.incoming, cliSock.script, cliSock.live, rc, aborted)
    {
      hide Header, I32, FromLe32, Le32, Loaded, Serve;
      aborted := false;
      if pool.clusterPoolInitialized {
        InitWhileUp(driver.platform, State(), r, env);
        var sent := cliSock.SendSmall(Header(2, -2, 0));
        return -2, false;
      }
      var recvLen, body := cliSock.Recv(8);
      WholePiece(old(cliSock.incoming), body, cliSock.incoming, Body(r), rest);
      if recvLen != 8 {
        LoadedNone(pool.Value());
        var sent := cliSock.SendSmall(Header(2, -1, 0));
        return -1, true;
      }
      var bytesPerSector, sectorsPerCluster := I32(FromLe32(body[..4])), I32(FromLe32(body[4..]));
      InitBody(r, body);
      rc := StartPools(bytesPerSector, sectorsPerCluster, env);
    }

    /** handle_command_3. */
    method HandleDeinit(env: Env, ghost r: Request, ghost rest: seq<byte>) returns (rc: int)
      requires Valid() && r.Deinit? && cliSock.incoming <= Body(r) + rest
      modifies Repr()
      ensures Valid() && cliSock == old(cliSock) && PoolsMoved(old(pool.clusterPool), old(driver.pool.clusterPool))
      ensures Handled(driver.platform, r, rest, env, old(State()), old(cliSock.outgoing),
                      State(), cliSock.incoming, cliSock.outgoing, cliSock.live, rc, false, [])
      ensures var sv := Serve(driver.platform, old(State()), r, env);
              Smooth(r, sv, rest, old(cliSock.incoming), old(cliSock.script), old(cliSock.live)) ==>
                Answered(r, sv, rest, old(cliSock.script),
                         cliSock.incoming, cliSock.script, cliSock.live, rc, false)
    {
      assert Body(r) + rest == rest;
      if !pool.clusterPoolInitialized {
        var sent := cliSock.SendSmall(Header(3, -2, 0));
        return -2;
      }
      var proxyErr := driver.pool.Deinitialize(env.driverFree);
      var vitaErr := pool.Deinitialize(env.serverFree);
      rc := cliSock.SendSmall(Header(3, vitaErr, proxyErr));
    }

    /** The loops that send a buffer piece by piece. */
    method SendLoop(buffer: seq<byte>) returns (rc: int)
      modifies cliSock
      ensures cliSock.incoming == old(cliSock.incoming)
      ensures old(cliSock.outgoing) <= cliSock.outgoing <= old(cliSock.outgoing) + buffer
      ensures rc in {0, -1} && (rc == 0 ==> cliSock.outgoing == old(cliSock.outgoing) + buffer)
      ensures !old(cliSock.live) ==> !cliSock.live && cliSock.outgoing == old(cliSock.outgoing)
      ensures old(cliSock.live) && Generous(old(cliSock.script), |buffer|) ==>
                rc == 0 && cliSock.live && Generous(cliSock.script, |old(cliSock.script)| - |buffer|)
    {
      hide Generous;
      ghost var out, calls := cliSock.outgoing, |cliSock.script|;
      ghost var smooth := cliSock.live && Generous(cliSock.script, |buffer|);
      if smooth { GenerousAll(cliSock.script, |buffer|); }
      var bytesToSend := |buffer|;
      var bytesWereSend := 0;
      while bytesWereSend != bytesToSend
        invariant 0 <= bytesWereSend <= bytesToSend
        invariant cliSock.incoming == old(cliSock.incoming)
        invariant cliSock.outgoing == out + buffer[..bytesWereSend]
        invariant !old(cliSock.live) ==> !cliSock.live && bytesWereSend == 0
        invariant old(cliSock.live) ==> cliSock.live
        invariant smooth ==> Generous(cliSock.script, calls - bytesWereSend)
        decreases bytesToSend - bytesWereSend
      {
        ghost var script := cliSock.script;
        if smooth { GenerousCall(script, calls - bytesWereSend); }
        var sendLen := cliSock.Send(buffer[bytesWereSend..]);
        if sendLen <= 0 { return -1; }
        assert buffer[..bytesWereSend] + buffer[bytesWereSend..][..sendLen] == buffer[..bytesWereSend + sendLen];
        if smooth { GenerousAfter(script, calls - bytesWereSend, sendLen); }
        bytesWereSend := bytesWereSend + sendLen;
      }
      rc := 0;
    }

    /** handle_command_4, 8 and 12. */
    method HandleReadSector(dev: Device, env: Env, ghost r: Request, ghost rest: seq<byte>)
      returns (rc: int, ghost aborted: bool)
      requires Valid() && r.ReadSector? && r.dev == dev && cliSock.incoming <= Body(r) + rest
      modifies cliSock
      ensures Valid() && State() == old(State())
      ensures Handled(driver.platform, r, rest, env, old(State()), old(cliSock.outgoing),
                      State(), cliSock.incoming, cliSock.outgoing, cliSock.live, rc, aborted, [])
      ensures var sv := Serve(driver.platform, old(State()), r, env);
              Smooth(r, sv, rest, old(cliSock.incoming), old(cliSock.script), old(cliSock.live)) ==>
                Answered(r, sv, rest, old(cliSock.script),
                         cliSock.incoming, cliSock.script, cliSock.live, rc, aborted)
    {
      var recvLen, body := cliSock.Recv(4);
      WholePiece(old(cliSock.incoming), body, cliSock.incoming, Body(r), rest);
      if recvLen != 4 {
        LoadedNone(pool.Value());
        var sent := cliSock.Send(Header(Base(dev), -1, 0) + Zeros());
        return -1, true;
      }
      var sector := I32(FromLe32(body));
      WordBody(r.sector, body);
      var data := new byte[SECTOR](_ => 0);
      assert data[..] == Zeros();
      var proxyErr := driver.ReadSector(dev, sector, env, data);
      rc := SendLoop(Header(Base(dev), 0, proxyErr) + data[..]);
      aborted := false;
    }

    /** The second half of handle_command_5, 9 and 13: read, then send the header and a cluster's worth of bytes,
        whether or not the read succeeded. */
    method AnswerReadCluster(dev: Device, cluster: int32, env: Env) returns (rc: int)
      requires Valid()
      modifies Repr()
      ensures Valid() && cliSock == old(cliSock) && PoolsMoved(old(pool.clusterPool), old(driver.pool.clusterPool))
      ensures cliSock.incoming == old(cliSock.incoming)
      ensures var sv := Serve(driver.platform, old(State()), ReadCluster(dev, cluster), env);
              && State() == sv.st
              && old(cliSock.outgoing) <= cliSock.outgoing <= old(cliSock.outgoing) + sv.reply
              && (rc >= 0 && cliSock.live ==> cliSock.outgoing == old(cliSock.outgoing) + sv.reply && !sv.closes)
              && (old(cliSock.live) && Generous(old(cliSock.script), |sv.reply|) ==>
                    cliSock.live && (sv.closes <==> rc < 0)
                    && Generous(cliSock.script, |old(cliSock.script)| - |sv.reply|))
    {
      hide Header, I32, FromLe32, Overlay, Sectors, Contents, ReadClusterStep;
      ServeKeepsStateOk(driver.platform, State(), ReadCluster(dev, cluster), env);
      ReadClusterGeometry(driver.platform, State(), dev, cluster, env);
      var proxyErr := driver.ReadCluster(dev, cluster, env, pool);
      var sent := cliSock.SendSmall(Header(Base(dev) + 1, 0, proxyErr));
      if ClusterBytes(pool.Value()) < 0 { return -1; }
      rc := SendLoop(Payload(pool.Value(), env));
    }

    /** handle_command_5, 9 and 13. */
    method HandleReadCluster(dev: Device, env: Env, ghost r: Request, ghost rest: seq<byte>)
      returns (rc: int, ghost aborted: bool)
      requires Valid() && r.ReadCluster? && r.dev == dev && cliSock.incoming <= Body(r) + rest
      modifies Repr()
      ensures Valid() && cliSock == old(cliSock) && PoolsMoved(old(pool.clusterPool), old(driver.pool.clusterPool))
      ensures Handled(driver.platform, r, rest, env, old(State()), old(cliSock.outgoing),
                      State(), cliSock.incoming, cliSock.outgoing, cliSock.live, rc, aborted, [])
      ensures var sv := Serve(driver.platform, old(State()), r, env);
              Smooth(r, sv, rest, old(cliSock.incoming), old(cliSock.script), old(cliSock.live)) ==>
                Answered(r, sv, rest, old(cliSock.script),
                         cliSock.incoming, cliSock.script, cliSock.live, rc, aborted)
    {
      hide Header, I32, FromLe32, Overlay, Loaded, Serve;
      var recvLen, body := cliSock.Recv(4);
      WholePiece(old(cliSock.incoming), body, cliSock.incoming, Body(r), rest);
      if recvLen != 4 {
        LoadedNone(pool.Value());
        var sent := cliSock.SendSmall(Header(Base(dev) + 1, -1, 0));
        return -1, true;
      }
      aborted := false;
      WordBody(r.cluster, body);
      rc := AnswerReadCluster(dev, I32(FromLe32(body)), env);
    }

    /** The loops that collect a request body piece by piece. */
    method ReceiveBody(bytesToReceive: nat) returns (ok: bool, req: seq<byte>)
      modifies cliSock
      ensures old(cliSock.incoming) == req + cliSock.incoming && cliSock.outgoing == old(cliSock.outgoing)
      ensures |req| <= bytesToReceive && (ok <==> |req| == bytesToReceive)
      ensures cliSock.live == old(cliSock.live)
      ensures old(cliSock.live) && Generous(old(cliSock.script), bytesToReceive)
              && bytesToReceive <= |old(cliSock.incoming)| ==>
                ok && Generous(cliSock.script, |old(cliSock.script)| - bytesToReceive)
    {
      hide Generous;
      ghost var calls := |cliSock.script|;
      ghost var smooth := cliSock.live && Generous(cliSock.script, bytesToReceive)
                          && bytesToReceive <= |cliSock.incoming|;
      if smooth { GenerousAll(cliSock.script, bytesToReceive); }
      req := [];
      while bytesToReceive != |req|
        invariant |req| <= bytesToReceive
        invariant old(cliSock.incoming) == req + cliSock.incoming
        invariant cliSock.outgoing == old(cliSock.outgoing) && cliSock.live == old(cliSock.live)
        invariant smooth ==> Generous(cliSock.script, calls - |req|)
        decreases bytesToReceive - |req|
      {
        ghost var script := cliSock.script;
        if smooth { GenerousCall(script, calls - |req|); }
        var recvLen, piece := cliSock.Recv(bytesToReceive - |req|);
        if recvLen <= 0 { return false, req; }
        if smooth { GenerousAfter(script, calls - |req|, recvLen); }
        req := req + piece;
      }
      ok := true;
    }

    /** handle_command_6, 10 and 14: the request is collected piece by piece. */
    method HandleWriteSector(dev: Device, env: Env, ghost r: Request, ghost rest: seq<byte>)
      returns (rc: int, ghost aborted: bool)
      requires Valid() && r.WriteSector? && r.dev == dev && cliSock.incoming <= Body(r) + rest
      modifies cliSock
      ensures Valid() && State() == old(State())
      ensures Handled(driver.platform, r, rest, env, old(State()), old(cliSock.outgoing),
                      State(), cliSock.incoming, cliSock.outgoing, cliSock.live, rc, aborted, [])
      ensures var sv := Serve(driver.platform, old(State()), r, env);
              Smooth(r, sv, rest, old(cliSock.incoming), old(cliSock.script), old(cliSock.live)) ==>
                Answered(r, sv, rest, old(cliSock.script),
                         cliSock.incoming, cliSock.script, cliSock.live, rc, aborted)
    {
      hide Header;
      var ok, req := ReceiveBody(4 + SECTOR);
      WholePiece(old(cliSock.incoming), req, cliSock.incoming, Body(r), rest);
      if !ok {
        LoadedNone(pool.Value());
        var sent := cliSock.SendSmall(Header(Base(dev) + 2, -1, 0));
        return -1, true;
      }
      var proxyErr := driver.WriteSector(dev);
      rc := cliSock.SendSmall(Header(Base(dev) + 2, 0, proxyErr));
      aborted := false;
    }

    /** The loop of handle_command_7, 11 and 15 that receives cluster data into the pool. */
    method ReceiveCluster(bytesToReceive: nat) returns (ok: bool, ghost data: seq<byte>)
      requires PoolOk(pool.Value()) && bytesToReceive == ClusterBytes(pool.Value())
      modifies cliSock, pool.clusterPool
      ensures PoolOk(pool.Value()) && pool.Value() == Loaded(old(pool.Value()), data)
      ensures old(cliSock.incoming) == data + cliSock.incoming && cliSock.outgoing == old(cliSock.outgoing)
      ensures |data| <= bytesToReceive && (ok <==> |data| == bytesToReceive)
      ensures cliSock.live == old(cliSock.live)
      ensures old(cliSock.live) && Generous(old(cliSock.script), bytesToReceive)
              && bytesToReceive <= |old(cliSock.incoming)| ==>
                ok && Generous(cliSock.script, |old(cliSock.script)| - bytesToReceive)
    {
      hide ClusterBytes, PoolOk, Loaded, Generous, ClusterPool.Value;
      ghost var p := pool.Value();
      ghost var calls := |cliSock.script|;
      ghost var smooth := cliSock.live && Generous(cliSock.script, bytesToReceive)
                          && bytesToReceive <= |cliSock.incoming|;
      if smooth { GenerousAll(cliSock.script, bytesToReceive); }
      var bytesWereReceived := 0;
      data := [];
      LoadedNone(p);
      PoolBytes(p);
      while bytesToReceive != bytesWereReceived
        invariant bytesWereReceived == |data| <= bytesToReceive
        invariant pool.Value() == Loaded(p, data) && PoolOk(pool.Value())
        invariant old(cliSock.incoming) == data + cliSock.incoming && cliSock.outgoing == old(cliSock.outgoing)
        invariant cliSock.live == old(cliSock.live)
        invariant smooth ==> Generous(cliSock.script, calls - bytesWereReceived)
        decreases bytesToReceive - bytesWereReceived
      {
        ghost var script := cliSock.script;
        if smooth { GenerousCall(script, calls - bytesWereReceived); }
        var recvLen, piece := cliSock.Recv(bytesToReceive - bytesWereReceived);
        if recvLen <= 0 { return false, data; }
        if smooth { GenerousAfter(script, calls - bytesWereReceived, recvLen); }
        Regroup(data, piece, cliSock.incoming);
        pool.Continue(p, data, bytesWereReceived, piece);
        bytesWereReceived := bytesWereReceived + recvLen;
        data := data + piece;
      }
      ok := true;
    }

    /** handle_command_7, 11 and 15. */
    method HandleWriteCluster(dev: Device, env: Env, ghost r: Request, ghost rest: seq<byte>)
      returns (rc: int, ghost aborted: bool, ghost torn: seq<byte>)
      requires Valid() && r.WriteCluster? && r.dev == dev && cliSock.incoming <= Body(r) + rest
      requires WellFormed(State(), r)
      modifies Repr()
      ensures Valid() && cliSock == old(cliSock) && PoolsMoved(old(pool.clusterPool), old(driver.pool.clusterPool))
      ensures Handled(driver.platform, r, rest, env, old(State()), old(cliSock.outgoing),
                      State(), cliSock.incoming, cliSock.outgoing, cliSock.live, rc, aborted, torn)
      ensures var sv := Serve(driver.platform, old(State()), r, env);
              Smooth(r, sv, rest, old(cliSock.incoming), old(cliSock.script), old(cliSock.live)) ==>
                Answered(r, sv, rest, old(cliSock.script),
                         cliSock.incoming, cliSock.script, cliSock.live, rc, aborted)
    {
      hide Header, ClusterBytes, Overlay, Loaded;
      torn := [];
      var recvLen, body := cliSock.Recv(4);
      assert Body(r) + rest == Le32(r.cluster) + (r.data + rest);
      WholePiece(old(cliSock.incoming), body, cliSock.incoming, Le32(r.cluster), r.data + rest);
      if recvLen != 4 {
        LoadedNone(pool.Value());
        var sent := cliSock.SendSmall(Header(Base(dev) + 3, -1, 0));
        return -1, true, [];
      }
      ghost var incoming := cliSock.incoming;
      var ok;
      ok, torn := ReceiveCluster(ClusterBytes(pool.Value()));
      WholePiece(incoming, torn, cliSock.incoming, r.data, rest);
      if !ok {
        var sent := cliSock.SendSmall(Header(Base(dev) + 3, -1, 0));
        return -1, true, torn;
      }
      var proxyErr := driver.WriteCluster(dev);
      rc := cliSock.SendSmall(Header(Base(dev) + 3, 0, proxyErr));
      aborted := false;
    }

    /** The switch of receive_commands. */
    method Dispatch(command: int, env: Env, ghost r: Request, ghost rest: seq<byte>)
      returns (rc: int, ghost aborted: bool, ghost torn: seq<byte>)
      requires Valid() && command == Code(r) && cliSock.incoming <= Body(r) + rest
      requires WellFormed(State(), r)
      modifies Repr()
      ensures Valid() && cliSock == old(cliSock) && PoolsMoved(old(pool.clusterPool), old(driver.pool.clusterPool))
      ensures Handled(driver.platform, r, rest, env, old(State()), old(cliSock.outgoing),
                      State(), cliSock.incoming, cliSock.outgoing, cliSock.live, rc, aborted, torn)
      ensures var sv := Serve(driver.platform, old(State()), r, env);
              Smooth(r, sv, rest, old(cliSock.incoming), old(cliSock.script), old(cliSock.live)) ==>
                Answered(r, sv, rest, old(cliSock.script),
                         cliSock.incoming, cliSock.script, cliSock.live, rc, aborted)
    {
      hide Handled, StateOk, WellFormed, Body;
      aborted, torn := false, [];
      if command == 0 || command == 1 {
        rc := HandleGreeting(command, env, r, rest);
      } else if command == 2 {
        rc, aborted := HandleInit(env, r, rest);
      } else if command == 3 {
        rc := HandleDeinit(env, r, rest);
      } else {
        var dev := if command < 8 then Emmc else if command < 12 then Ms else Gc;
        if command == Base(dev) {
          rc, aborted := HandleReadSector(dev, env, r, rest);
        } else if command == Base(dev) + 1 {
          rc, aborted := HandleReadCluster(dev, env, r, rest);
        } else if command == Base(dev) + 2 {
          rc, aborted := HandleWriteSector(dev, env, r, rest);
        } else {
          rc, aborted, torn := HandleWriteCluster(dev, env, r, rest);
        }
      }
    }

    /** One round of the command loop: receive a command word and serve its request. */
    method ServeNext(env: Env, ghost st0: Protocol.State, ghost out0: seq<byte>, ghost reqs: seq<Request>,
                     ghost envs: seq<Env>, ghost tail: seq<byte>, ghost k: nat)
      returns (more: bool, ghost session: Session)
      requires Valid() && k < |envs| && env == envs[k] && WellFormedRun(driver.platform, st0, reqs, envs)
      requires NoCommand(tail)
      requires Between(driver.platform, st0, out0, reqs, envs, tail, k, State(), cliSock.incoming, cliSock.outgoing,
                       cliSock.live)
      modifies Repr()
      ensures Valid() && cliSock == old(cliSock) && PoolsMoved(old(pool.clusterPool), old(driver.pool.clusterPool))
      ensures more ==> Between(driver.platform, st0, out0, reqs, envs, tail, k + 1,
                               State(), cliSock.incoming, cliSock.outgoing, cliSock.live)
      ensures !more ==> out0 <= cliSock.outgoing
                        && Serves(driver.platform, st0, reqs, envs, session, State(), cliSock.outgoing[|out0|..])
      ensures Arrived(driver.platform, st0, reqs, envs, tail, k, old(cliSock.incoming), old(cliSock.script),
                      old(cliSock.live)) ==>
                if k == |reqs| then
                  !more && session == Session(reqs, false, []) && cliSock.outgoing == old(cliSock.outgoing)
                else if Serve(driver.platform, old(State()), reqs[k], env).closes then
                  !more && session == Session(reqs[..k + 1], false, [])
                else more && Arrived(driver.platform, st0, reqs, envs, tail, k + 1,
                                     cliSock.incoming, cliSock.script, cliSock.live)
    {
      hide Between, Serves, StateOk, Handled, CommandWord, WellFormedRun, Arrived, Smooth, Answered, Serve, EncodeAll;
      ghost var pf, incoming, st, out := driver.platform, cliSock.incoming, State(), cliSock.outgoing;
      ghost var script, live := cliSock.script, cliSock.live;
      ghost var arrived := Arrived(pf, st0, reqs, envs, tail, k, incoming, script, live);
      BetweenServes(pf, st0, out0, reqs, envs, tail, k, st, incoming, out, cliSock.live);
      more, session := false, Session(reqs[..k], false, []);
      var recvLen, word := cliSock.Recv(4);
      if arrived {
        ArrivedIsLive(pf, st0, reqs, envs, tail, k, incoming, script, live);
        BetweenState(pf, st0, out0, reqs, envs, tail, k, st, incoming, out, live);
        if k < |reqs| {
          ArrivedWord(pf, st0, reqs, envs, tail, k, st, incoming, script, word, cliSock.incoming, cliSock.script);
        }
      }
      if recvLen <= 0 { return; }
      BetweenWord(pf, st0, out0, reqs, envs, tail, k, st, incoming, out, word, cliSock.incoming);
      var command := CommandWord(word);
      if command < 0 || command >= 16 { return; }
      script := cliSock.script;
      var rc;
      ghost var aborted, torn;
      rc, aborted, torn := Dispatch(command, env, reqs[k], EncodeAll(reqs[k + 1..]) + tail);
      BetweenStep(pf, st0, out0, reqs, envs, tail, k, st, incoming, out,
                  State(), cliSock.incoming, cliSock.outgoing, cliSock.live, rc, aborted, torn);
      if arrived {
        ArrivedNext(pf, st0, reqs, envs, tail, k, st, Serve(pf, st, reqs[k], env), script,
                    cliSock.incoming, cliSock.script, cliSock.live, rc, aborted);
      }
      more := rc >= 0;
      session := if aborted then Session(reqs[..k], true, torn) else Session(reqs[..k + 1], false, []);
    }

    /** receive_commands, on a stream that is a start of the encoding of reqs and of bytes that are no command. However
        the network chops it, what is served is a prefix of reqs; a command word that arrives in part, or is none of the
        sixteen, drops the connection. */
    method ReceiveCommands(envs: seq<Env>, ghost reqs: seq<Request>, ghost tail: seq<byte>)
      returns (ghost session: Session)
      requires Valid() && cliSock.incoming <= EncodeAll(reqs) + tail && NoCommand(tail) && cliSock.live
      requires WellFormedRun(driver.platform, State(), reqs, envs)
      modifies Repr()
      ensures Valid() && cliSock == old(cliSock) && PoolsMoved(old(pool.clusterPool), old(driver.pool.clusterPool))
      ensures old(cliSock.outgoing) <= cliSock.outgoing
      ensures Serves(driver.platform, old(State()), reqs, envs, session, State(),
                     cliSock.outgoing[|old(cliSock.outgoing)|..])
      ensures Arrived(driver.platform, old(State()), reqs, envs, tail, 0,
                      old(cliSock.incoming), old(cliSock.script), old(cliSock.live)) ==>
                |reqs| <= |envs| &&
                Complete(driver.platform, old(State()), reqs, envs, session,
                         cliSock.outgoing[|old(cliSock.outgoing)|..])
    {
      hide Between, Serves, StateOk, WellFormedRun, Arrived, Complete, Serve, EncodeAll;
      ghost var st0, out0 := State(), cliSock.outgoing;
      ghost var arrived := Arrived(driver.platform, st0, reqs, envs, tail, 0, cliSock.incoming, cliSock.script,
                                   cliSock.live);
      var k := 0;
      BetweenStart(driver.platform, st0, reqs, envs, tail, cliSock.incoming, out0);
      while k < |envs|
        invariant Valid() && cliSock == old(cliSock) && PoolsMoved(old(pool.clusterPool), old(driver.pool.clusterPool))
        invariant k <= |envs|
        invariant Between(driver.platform, st0, out0, reqs, envs, tail, k,
                          State(), cliSock.incoming, cliSock.outgoing, cliSock.live)
        invariant arrived ==> Arrived(driver.platform, st0, reqs, envs, tail, k, cliSock.incoming, cliSock.script,
                                      cliSock.live)
      {
        var more;
        ghost var st, incoming, out := State(), cliSock.incoming, cliSock.outgoing;
        ghost var script, live := cliSock.script, cliSock.live;
        more, session := ServeNext(envs[k], st0, out0, reqs, envs, tail, k);
        if !more {
          if arrived {
            ArrivedIsLive(driver.platform, st0, reqs, envs, tail, k, incoming, script, live);
            if k < |reqs| {
              BetweenServes(driver.platform, st0, out0, reqs, envs, tail, k, st, incoming, out, live);
              CompleteStopped(driver.platform, st0, out0, reqs, envs, tail, k, st, incoming, out, live,
                              cliSock.outgoing[|out0|..]);
            } else {
              CompleteAll(driver.platform, st0, out0, reqs, envs, tail, st, incoming, out);
            }
          }
          return;
        }
        k := k + 1;
      }
      BetweenServes(driver.platform, st0, out0, reqs, envs, tail, k, State(), cliSock.incoming, cliSock.outgoing,
                    cliSock.live);
      session := Session(reqs[..k], false, []);
      if arrived {
        ArrivedIsLive(driver.platform, st0, reqs, envs, tail, k, cliSock.incoming, cliSock.script, cliSock.live);
        assert reqs[..k] == reqs;
        CompleteAll(driver.platform, st0, out0, reqs, envs, tail, State(), cliSock.incoming, cliSock.outgoing);
      }
    }

    /** One client of accept_single_connection. */
    method ServeConnection(connection: Socket, envs: seq<Env>, ghost reqs: seq<Request>, ghost tail: seq<byte>)
      returns (ghost session: Session)
      requires Valid() && connection.live && connection.incoming <= EncodeAll(reqs) + tail && NoCommand(tail)
      requires WellFormedRun(driver.platform, State(), reqs, envs)
      modifies this`cliSock, pool, pool.clusterPool, driver.pool, driver.pool.clusterPool, connection
      ensures Valid() && PoolsMoved(old(pool.clusterPool), old(driver.pool.clusterPool)) && !connection.live
      ensures Conducted(driver.platform, old(State()), reqs, envs, tail, old(connection.incoming),
                        old(connection.script), old(connection.outgoing), session, State(), connection.outgoing)
    {
      hide Serves, PoolInv, StateOk, WellFormedRun, Arrived, Complete, NoCommand;
      cliSock := connection;
      session := ReceiveCommands(envs, reqs, tail);
      cliSock.Close();
    }

    lemma StateIsOk()
      requires Valid()
      ensures StateOk(State())
    {
    }

    /** accept_single_connection: one client after another, each with whatever well-formed requests suit the state it
        finds the server in. The pools outlive the connections, and stay in agreement. */
    method AcceptConnections(streams: seq<Protocol.State -> seq<byte>>, scripts: seq<seq<int>>, envs: seq<seq<Env>>,
                             ghost clients: seq<Protocol.State -> seq<Request>>,
                             ghost tails: seq<Protocol.State -> seq<byte>>)
      returns (connections: seq<Socket>, ghost sessions: seq<Session>, ghost states: seq<Protocol.State>)
      requires Valid() && |streams| == |scripts| == |envs| == |clients| == |tails|
      requires forall i :: 0 <= i < |clients| ==> Speaks(driver.platform, clients[i], tails[i], envs[i], streams[i])
      modifies this`cliSock, pool, pool.clusterPool, driver.pool, driver.pool.clusterPool
      ensures Valid()
      ensures |connections| == |sessions| == |clients| && |states| == |clients| + 1
      ensures states[0] == old(State()) && states[|clients|] == State()
      ensures forall i :: 0 <= i < |connections| ==> fresh(connections[i]) && !connections[i].live
      ensures forall i :: 0 <= i < |connections| ==>
                Conducted(driver.platform, states[i], clients[i](states[i]), envs[i], tails[i](states[i]),
                          streams[i](states[i]), scripts[i], [], sessions[i], states[i + 1], connections[i].outgoing)
      ensures PoolInv(old(State())) && (forall i :: 0 <= i < |envs| ==> DriverFrees(envs[i])) ==>
                forall i :: 0 <= i < |states| ==> PoolInv(states[i])
    {
      hide PoolInv, StateOk, Speaks, NoCommand, WellFormedRun, EncodeAll, Conducted, DriverFrees, Valid, State;
      ghost var agree := PoolInv(State()) && forall i :: 0 <= i < |envs| ==> DriverFrees(envs[i]);
      ghost var was, driverWas := pool.clusterPool, driver.pool.clusterPool;
      connections, sessions, states := [], [], [State()];
      var i := 0;
      while i < |streams|
        invariant 0 <= i <= |streams| && Valid() && PoolsMoved(was, driverWas)
        invariant |connections| == |sessions| == i && |states| == i + 1
        invariant states[0] == old(State()) && states[i] == State()
        invariant forall j :: 0 <= j < i ==> fresh(connections[j]) && !connections[j].live
        invariant forall j :: 0 <= j < i ==>
                    Conducted(driver.platform, states[j], clients[j](states[j]), envs[j], tails[j](states[j]),
                              streams[j](states[j]), scripts[j], [], sessions[j], states[j + 1],
                              connections[j].outgoing)
        invariant agree ==> forall j :: 0 <= j <= i ==> PoolInv(states[j])
      {
        StateIsOk();
        SpeaksAt(driver.platform, clients[i], tails[i], envs[i], streams[i], State());
        var connection := new Socket(streams[i](State()), scripts[i]);
        ghost var reqs, tail := clients[i](State()), tails[i](State());
        ghost var session := ServeConnection(connection, envs[i], reqs, tail);
        if agree {
          ConductedKeepsInv(driver.platform, states[i], reqs, envs[i], tail, streams[i](states[i]), scripts[i], [],
                            session, State(), connection.outgoing);
        }
        connections, sessions, states := connections + [connection], sessions + [session], states + [State()];
        i := i + 1;
      }
    }
  }
}
