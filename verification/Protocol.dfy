/** What the server and the driver do with one request, as a function of their state and of the kernel's
    answers; and what a run of requests does. */
module Protocol {
  import opened Words
  import opened Wire
  import opened Pools

  /** The storage devices: their contents, and which of them the driver could initialise. */
  datatype Platform = Platform(disk: (Device, int) -> Sector, ready: set<Device>)

  /** What the kernel answers while one command is served; junk is what fresh or freed memory holds. */
  datatype Env = Env(serverAlloc: int32, serverBase: int32, driverAlloc: int32, driverBase: int32,
                     serverFree: int32, driverFree: int32, read: int32, copy: int32, junk: nat -> byte)

  /** The two pools are all that outlives a command, and a connection. */
  datatype State = State(server: Pool, driver: Pool)

  predicate StateOk(st: State) { PoolOk(st.server) && PoolOk(st.driver) }

  /** The contents of n sectors from first. */
  function Sectors(pf: Platform, dev: Device, first: int, n: nat): (data: seq<byte>)
    ensures |data| == SECTOR * n
  {
    if n == 0 then [] else Sectors(pf, dev, first, n - 1) + pf.disk(dev, first + n - 1)
  }

  // ---------- the driver ----------

  /** readSector and its two copies: a context must be up, the read and the copy out must succeed. */
  function ReadSectorCode(pf: Platform, dev: Device, env: Env): int32 {
    if dev !in pf.ready then -1 else if env.read < 0 then env.read else if env.copy < 0 then env.copy else 0
  }

  function SectorCount(p: Pool): nat { if p.sectorsPerCluster < 0 then 0 else p.sectorsPerCluster }

  datatype ClusterRead = ClusterRead(code: int32, st: State)

  /** readCluster and its two copies: sectors into the driver's pool, and from there into the server's. */
  function ReadClusterStep(pf: Platform, st: State, dev: Device, cluster: int32, env: Env): ClusterRead {
    if dev !in pf.ready then ClusterRead(-1, st)
    else if !st.driver.up then ClusterRead(-2, st)
    else if env.read < 0 then ClusterRead(env.read, st)
    else
      var d := Loaded(st.driver, Sectors(pf, dev, I32(st.driver.sectorsPerCluster * cluster), SectorCount(st.driver)));
      if env.copy < 0 then ClusterRead(env.copy, State(st.server, d))
      else ClusterRead(0, State(Loaded(st.server, d.mem), d))
  }

  /** The write functions check the device, and the pool for a cluster, and are otherwise not implemented. */
  function WriteSectorCode(pf: Platform, dev: Device): int32 { if dev !in pf.ready then -1 else -2 }

  function WriteClusterCode(pf: Platform, st: State, dev: Device): int32 {
    if dev !in pf.ready then -1 else if !st.driver.up then -2 else -3
  }

  // ---------- the server ----------

  /** The bytes sent after the header of a cluster response: the pool, or whatever its pointer leads to. */
  function Payload(p: Pool, env: Env): seq<byte> {
    if p.up then p.mem else if ClusterBytes(p) <= 0 then [] else Contents(ClusterBytes(p), env.junk)
  }

  /** The state after a request, the response, and whether the handler makes the server drop the connection. */
  datatype Served = Served(st: State, reply: seq<byte>, closes: bool)

  function Serve(pf: Platform, st: State, r: Request, env: Env): Served {
    match r
    case Ping => Served(st, Header(0, 0, 0) + GREETING, false)
    case Terminate => Served(st, Header(1, 0, 0) + GREETING, false)
    case Init(b, s) =>
      if st.server.up then Served(st, Header(2, -2, 0), true)
      else
        var o := Initialized(st.server, b, s, env.serverAlloc, env.serverBase, env.junk);
        if o.code != 0 then Served(st.(server := o.pool), Header(2, o.code, 0), false)
        else
          var d := Initialized(st.driver, b, s, env.driverAlloc, env.driverBase, env.junk);
          Served(State(o.pool, d.pool), Header(2, 0, d.code), false)
    case Deinit =>
      if !st.server.up then Served(st, Header(3, -2, 0), true)
      else
        var d := Deinitialized(st.driver, env.driverFree);
        var o := Deinitialized(st.server, env.serverFree);
        Served(State(o.pool, d.pool), Header(3, o.code, d.code), false)
    case ReadSector(dev, sector) =>
      var code := ReadSectorCode(pf, dev, env);
      Served(st, Header(Code(r), 0, code) + (if code == 0 then pf.disk(dev, sector) else Zeros()), false)
    case ReadCluster(dev, cluster) =>
      var c := ReadClusterStep(pf, st, dev, cluster, env);
      Served(c.st, Header(Code(r), 0, c.code) + Payload(c.st.server, env), ClusterBytes(st.server) < 0)
    case WriteSector(dev, _, _) =>
      Served(st, Header(Code(r), 0, WriteSectorCode(pf, dev)), false)
    case WriteCluster(dev, _, data) =>
      Served(st.(server := Loaded(st.server, data)), Header(Code(r), 0, WriteClusterCode(pf, st, dev)), false)
  }

  /** The response to a request whose body came up short; the server then drops the connection. */
  function AbortReply(r: Request): seq<byte> {
    Header(Code(r), -1, 0) + (if r.ReadSector? then Zeros() else [])
  }

  /** A cluster write carries as many bytes as the server's geometry says. */
  predicate WellFormed(st: State, r: Request) { r.WriteCluster? ==> |r.data| == ClusterBytes(st.server) }

  // ---------- runs ----------

  /** The state after serving reqs in order, whatever connections they came over, and the responses. */
  function After(pf: Platform, st: State, reqs: seq<Request>, envs: seq<Env>): State
    requires |reqs| <= |envs|
  {
    if reqs == [] then st
    else Serve(pf, After(pf, st, reqs[..|reqs| - 1], envs), reqs[|reqs| - 1], envs[|reqs| - 1]).st
  }

  function Replies(pf: Platform, st: State, reqs: seq<Request>, envs: seq<Env>): seq<byte>
    requires |reqs| <= |envs|
  {
    if reqs == [] then []
    else
      var n := |reqs| - 1;
      Replies(pf, st, reqs[..n], envs) + Serve(pf, After(pf, st, reqs[..n], envs), reqs[n], envs[n]).reply
  }

  /** No write ever succeeds: whatever the state, the response carries a negative driver error, -1 exactly when the
      device is not there and -2 for a cluster exactly when the driver's pool is down; nothing on the driver's side
      changes, a sector write changes nothing at all, and the connection stays open. */
  lemma WritesAreRefused(pf: Platform, st: State, r: Request, env: Env)
    requires r.WriteSector? || r.WriteCluster?
    ensures var sv := Serve(pf, st, r, env);
            && !sv.closes && sv.st.driver == st.driver && (r.WriteSector? ==> sv.st == st)
            && |sv.reply| == 12
            && var error := I32(FromLe32(sv.reply[8..]));
               && error < 0 && (error == -1 <==> r.dev !in pf.ready)
               && (r.WriteCluster? ==> (error == -2 <==> r.dev in pf.ready && !st.driver.up))
  {
    hide I32, FromLe32, Le32;
    var code := if r.WriteSector? then WriteSectorCode(pf, r.dev) else WriteClusterCode(pf, st, r.dev);
    assert Serve(pf, st, r, env).reply[8..] == Le32(code);
    Le32RoundTrip(code);
    WordsAgree(code);
  }

  lemma ServeKeepsStateOk(pf: Platform, st: State, r: Request, env: Env)
    requires StateOk(st)
    ensures StateOk(Serve(pf, st, r, env).st)
  {
  }

  lemma {:induction false} AfterStateOk(pf: Platform, st: State, reqs: seq<Request>, envs: seq<Env>)
    requires StateOk(st) && |reqs| <= |envs|
    ensures StateOk(After(pf, st, reqs, envs))
  {
    if reqs != [] {
      var n := |reqs| - 1;
      AfterStateOk(pf, st, reqs[..n], envs);
      ServeKeepsStateOk(pf, After(pf, st, reqs[..n], envs), reqs[n], envs[n]);
    }
  }
}
