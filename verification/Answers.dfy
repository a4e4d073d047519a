/** What the bytes on the wire say, command by command: where the fields of a request and of a response lie, what each
    response answers, and what each request leaves behind. */
module Answers {
  import opened Words
  import opened Memory
  import opened Wire
  import opened Pools
  import opened Protocol
  import opened PoolInvariant

  /** The signed word at a byte of a message. */
  function Word(b: seq<byte>, at: nat): int32
    requires at + 4 <= |b|
  {
    I32(FromLe32(b[at..at + 4]))
  }

  /** Words are sent low byte first, negative ones in two's complement. */
  lemma ByteOrder()
    ensures Le32(0x0403_0201) == [1, 2, 3, 4] && FromLe32([1, 2, 3, 4]) == 0x0403_0201
    ensures Le32(-2) == [254, 255, 255, 255] && I32(FromLe32([254, 255, 255, 255])) == -2
  {
    hide Le32;
    FromLe32RoundTrip([1, 2, 3, 4]);
    FromLe32RoundTrip([254, 255, 255, 255]);
    assert FromLe32([254, 255, 255, 255]) == 0xFFFF_FFFE;
    Wraps(-2, 0xFFFF_FFFE);
  }

  lemma Wraps(v: int, w: int)
    requires U32(v) == U32(w)
    ensures Le32(v) == Le32(w)
  {
  }

  lemma WordAt(b: seq<byte>, at: nat, v: int32)
    requires at + 4 <= |b| && b[at..at + 4] == Le32(v)
    ensures Word(b, at) == v
  {
    Le32RoundTrip(v);
    WordsAgree(v);
  }

  // ---------- requests ----------

  /** The sixteen command words. */
  lemma CommandBytes(r: Request)
    ensures Encode(r)[1..4] == [0, 0, 0]
    ensures (Encode(r)[0] == 0 <==> r.Ping?) && (Encode(r)[0] == 1 <==> r.Terminate?)
    ensures (Encode(r)[0] == 2 <==> r.Init?) && (Encode(r)[0] == 3 <==> r.Deinit?)
    ensures Encode(r)[0] == 4 <==> r.ReadSector? && r.dev == Emmc
    ensures Encode(r)[0] == 5 <==> r.ReadCluster? && r.dev == Emmc
    ensures Encode(r)[0] == 6 <==> r.WriteSector? && r.dev == Emmc
    ensures Encode(r)[0] == 7 <==> r.WriteCluster? && r.dev == Emmc
    ensures Encode(r)[0] == 8 <==> r.ReadSector? && r.dev == Ms
    ensures Encode(r)[0] == 9 <==> r.ReadCluster? && r.dev == Ms
    ensures Encode(r)[0] == 10 <==> r.WriteSector? && r.dev == Ms
    ensures Encode(r)[0] == 11 <==> r.WriteCluster? && r.dev == Ms
    ensures Encode(r)[0] == 12 <==> r.ReadSector? && r.dev == Gc
    ensures Encode(r)[0] == 13 <==> r.ReadCluster? && r.dev == Gc
    ensures Encode(r)[0] == 14 <==> r.WriteSector? && r.dev == Gc
    ensures Encode(r)[0] == 15 <==> r.WriteCluster? && r.dev == Gc
  {
    hide Body;
    SmallWord(Code(r));
    assert Encode(r)[..4] == Le32(Code(r));
  }

  lemma SmallWord(c: int)
    requires 0 <= c < 0x100
    ensures Le32(c) == [c, 0, 0, 0]
  {
  }

  /** What follows the command word, and where. */
  lemma RequestFields(r: Request)
    ensures r.Ping? || r.Terminate? || r.Deinit? ==> |Encode(r)| == 4
    ensures r.Init? ==>
              |Encode(r)| == 12 && Word(Encode(r), 4) == r.bytesPerSector && Word(Encode(r), 8) == r.sectorsPerCluster
    ensures r.ReadSector? ==> |Encode(r)| == 8 && Word(Encode(r), 4) == r.sector
    ensures r.ReadCluster? ==> |Encode(r)| == 8 && Word(Encode(r), 4) == r.cluster
    ensures r.WriteSector? ==>
              |Encode(r)| == 8 + SECTOR && Word(Encode(r), 4) == r.sector && Encode(r)[8..] == r.content
    ensures r.WriteCluster? ==>
              |Encode(r)| == 8 + |r.data| && Word(Encode(r), 4) == r.cluster && Encode(r)[8..] == r.data
  {
    hide Word, Le32;
    var b := Encode(r);
    match r
    case Init(x, y) =>
      assert b[4..8] == Le32(x) && b[8..12] == Le32(y);
      WordAt(b, 4, x);
      WordAt(b, 8, y);
    case ReadSector(_, x) =>
      assert b[4..8] == Le32(x);
      WordAt(b, 4, x);
    case ReadCluster(_, x) =>
      assert b[4..8] == Le32(x);
      WordAt(b, 4, x);
    case WriteSector(_, x, content) =>
      assert b[4..8] == Le32(x) && b[8..] == content;
      WordAt(b, 4, x);
    case WriteCluster(_, x, data) =>
      assert b[4..8] == Le32(x) && b[8..] == data;
      WordAt(b, 4, x);
    case _ =>
  }

  // ---------- responses ----------

  /** A response starts with its command, the server's own error and the driver's. */
  predicate Says(reply: seq<byte>, command: int, vitaErr: int32, proxyErr: int32) {
    12 <= |reply| && Word(reply, 0) == command && Word(reply, 4) == vitaErr && Word(reply, 8) == proxyErr
  }

  lemma HeaderSays(command: int32, vitaErr: int32, proxyErr: int32, rest: seq<byte>)
    ensures Says(Header(command, vitaErr, proxyErr) + rest, command, vitaErr, proxyErr)
    ensures Says(Header(command, vitaErr, proxyErr), command, vitaErr, proxyErr)
  {
    hide Word, Le32;
    var h := Header(command, vitaErr, proxyErr);
    var b := h + rest;
    assert h[0..4] == Le32(command) == b[0..4] && h[4..8] == Le32(vitaErr) == b[4..8]
           && h[8..12] == Le32(proxyErr) == b[8..12];
    WordAt(h, 0, command);
    WordAt(h, 4, vitaErr);
    WordAt(h, 8, proxyErr);
    WordAt(b, 0, command);
    WordAt(b, 4, vitaErr);
    WordAt(b, 8, proxyErr);
  }

  /** Which requests make the server drop the connection: an INIT while its pool is up, a DEINIT while it is down, and a
      cluster read under a geometry whose size is negative. */
  lemma ClosesExactly(pf: Platform, st: State, r: Request, env: Env)
    ensures Serve(pf, st, r, env).closes
        <==> (r.Init? && st.server.up) || (r.Deinit? && !st.server.up)
             || (r.ReadCluster? && I32(st.server.bytesPerSector * st.server.sectorsPerCluster) < 0)
  {
  }

  /** A refused INIT or DEINIT says -2 and changes nothing. */
  lemma RefusalAnswer(pf: Platform, st: State, r: Request, env: Env)
    requires (r.Init? && st.server.up) || (r.Deinit? && !st.server.up)
    ensures var sv := Serve(pf, st, r, env);
            && sv.st == st && sv.closes && |sv.reply| == 12 && Says(sv.reply, if r.Init? then 2 else 3, -2, 0)
  {
    hide Says, Header;
    HeaderSays(if r.Init? then 2 else 3, -2, 0, []);
  }

  /** PING and TERMINATE are answered with "emmcproxy" and a zero byte, and change nothing. */
  lemma GreetingAnswer(pf: Platform, st: State, r: Request, env: Env)
    requires r.Ping? || r.Terminate?
    ensures var sv := Serve(pf, st, r, env);
            && sv.st == st && |sv.reply| == 22 && Says(sv.reply, if r.Ping? then 0 else 1, 0, 0)
            && (forall i :: 0 <= i < 9 ==> sv.reply[12 + i] == "emmcproxy"[i] as int) && sv.reply[21] == 0
  {
    hide Says, Header;
    GreetingText();
    HeaderSays(if r.Ping? then 0 else 1, 0, 0, GREETING);
  }

  lemma GreetingText()
    ensures |GREETING| == 10 && GREETING[9] == 0 && |"emmcproxy"| == 9
    ensures forall i :: 0 <= i < 9 ==> GREETING[i] == "emmcproxy"[i] as int
  {
  }

  predicate Geometry(p: Pool, bytesPerSector: int32, sectorsPerCluster: int32) {
    p.bytesPerSector == bytesPerSector && p.sectorsPerCluster == sectorsPerCluster
  }

  /** One of the two pools asked to go up: it does exactly when it was down, the sectors are of 0x200 bytes, the
      wrapped size is not negative, and the kernel grants the block and its address. Its code is then 0, and otherwise
      that of the first of these that fails; once the sectors are right its geometry is set whatever follows. */
  predicate PoolAnswers(p: Pool, q: Pool, code: int32, bytesPerSector: int32, sectorsPerCluster: int32,
                        alloc: int32, base: int32)
  {
    var size := I32(bytesPerSector * sectorsPerCluster);
    && (code == 0 <==> !p.up && bytesPerSector == 0x200 && alloc >= 0 && size >= 0 && base >= 0)
    && (q.up <==> p.up || code == 0)
    && (p.up || bytesPerSector != 0x200 ==> q == p)
    && (!p.up && bytesPerSector == 0x200 ==> Geometry(q, bytesPerSector, sectorsPerCluster))
    && (code == 0 ==> |q.mem| == size)
    && (p.up ==> code == -1)
    && (!p.up && bytesPerSector != 0x200 ==> code == -2)
    && (!p.up && bytesPerSector == 0x200 && alloc < 0 ==> code == alloc)
    && (!p.up && bytesPerSector == 0x200 && alloc >= 0 && size >= 0 && base < 0 ==> code == base)
  }

  lemma InitializedAnswers(p: Pool, bytesPerSector: int32, sectorsPerCluster: int32, alloc: int32, base: int32,
                           junk: nat -> byte)
    ensures var o := Initialized(p, bytesPerSector, sectorsPerCluster, alloc, base, junk);
            PoolAnswers(p, o.pool, o.code, bytesPerSector, sectorsPerCluster, alloc, base)
  {
  }

  /** INIT: the server's pool first and, only if that went up, the driver's. */
  lemma InitAnswer(pf: Platform, st: State, bytesPerSector: int32, sectorsPerCluster: int32, env: Env)
    requires !st.server.up
    ensures var sv := Serve(pf, st, Init(bytesPerSector, sectorsPerCluster), env);
            && |sv.reply| == 12
            && var vitaErr, proxyErr := Word(sv.reply, 4), Word(sv.reply, 8);
               && Says(sv.reply, 2, vitaErr, proxyErr)
               && PoolAnswers(st.server, sv.st.server, vitaErr, bytesPerSector, sectorsPerCluster,
                              env.serverAlloc, env.serverBase)
               && (vitaErr != 0 ==> sv.st.driver == st.driver && proxyErr == 0)
               && (vitaErr == 0 ==> PoolAnswers(st.driver, sv.st.driver, proxyErr, bytesPerSector, sectorsPerCluster,
                                                env.driverAlloc, env.driverBase))
  {
    hide Header, Word, Initialized, PoolAnswers;
    var o := Initialized(st.server, bytesPerSector, sectorsPerCluster, env.serverAlloc, env.serverBase, env.junk);
    var d := Initialized(st.driver, bytesPerSector, sectorsPerCluster, env.driverAlloc, env.driverBase, env.junk);
    InitializedAnswers(st.server, bytesPerSector, sectorsPerCluster, env.serverAlloc, env.serverBase, env.junk);
    InitializedAnswers(st.driver, bytesPerSector, sectorsPerCluster, env.driverAlloc, env.driverBase, env.junk);
    HeaderSays(2, o.code, if o.code == 0 then d.code else 0, []);
  }

  /** One of the two pools asked to go down: it does exactly when the free succeeds, and keeps its geometry. */
  predicate PoolFreed(p: Pool, q: Pool, code: int32, free: int32) {
    && (q.up <==> p.up && free < 0)
    && Geometry(q, p.bytesPerSector, p.sectorsPerCluster)
    && (q.up ==> q == p)
    && code == if !p.up then -1 else if free < 0 then free else 0
  }

  /** DEINIT: both pools, the driver's whether or not the server's goes down, and the other way round. */
  lemma DeinitAnswer(pf: Platform, st: State, env: Env)
    requires st.server.up
    ensures var sv := Serve(pf, st, Deinit, env);
            && |sv.reply| == 12
            && var vitaErr, proxyErr := Word(sv.reply, 4), Word(sv.reply, 8);
               && Says(sv.reply, 3, vitaErr, proxyErr)
               && PoolFreed(st.server, sv.st.server, vitaErr, env.serverFree)
               && PoolFreed(st.driver, sv.st.driver, proxyErr, env.driverFree)
  {
    hide Header, Word;
    HeaderSays(3, Deinitialized(st.server, env.serverFree).code, Deinitialized(st.driver, env.driverFree).code, []);
  }

  /** The driver's error in the response to a read: that of the first thing that fails, and 0 if nothing does. */
  predicate ReadError(error: int32, ready: bool, up: bool, env: Env) {
    && (!ready ==> error == -1)
    && (ready && !up ==> error == -2)
    && (ready && up && env.read < 0 ==> error == env.read)
    && (ready && up && env.read >= 0 && env.copy < 0 ==> error == env.copy)
    && (error == 0 <==> ready && up && env.read >= 0 && env.copy >= 0)
  }

  /** A sector read changes nothing, and brings the sector if the driver's error is 0, otherwise zeros. */
  lemma ReadSectorAnswer(pf: Platform, st: State, dev: Device, sector: int32, env: Env)
    ensures var sv := Serve(pf, st, ReadSector(dev, sector), env);
            && sv.st == st && |sv.reply| == 12 + 0x200
            && var error := Word(sv.reply, 8);
               && Says(sv.reply, match dev case Emmc => 4 case Ms => 8 case Gc => 12, 0, error)
               && ReadError(error, dev in pf.ready, true, env)
               && (error == 0 ==> sv.reply[12..] == pf.disk(dev, sector))
               && (error != 0 ==> forall i :: 12 <= i < |sv.reply| ==> sv.reply[i] == 0)
  {
    hide Header, Word;
    var sv := Serve(pf, st, ReadSector(dev, sector), env);
    HeaderSays(Code(ReadSector(dev, sector)), 0, ReadSectorCode(pf, dev, env), sv.reply[12..]);
    assert sv.reply == sv.reply[..12] + sv.reply[12..];
  }

  /** A cluster read is followed by as many bytes as the server's geometry says, none if that is negative, and while its
      pool is up they are what the pool holds then: what was there before, if the driver's error is not 0, and otherwise
      the driver's block, as far as it fits. */
  lemma ReadClusterAnswer(pf: Platform, st: State, dev: Device, cluster: int32, env: Env)
    requires StateOk(st)
    ensures var sv := Serve(pf, st, ReadCluster(dev, cluster), env);
            var size := I32(st.server.bytesPerSector * st.server.sectorsPerCluster);
            && |sv.reply| == 12 + (if size < 0 then 0 else size)
            && var error := Word(sv.reply, 8);
               && Says(sv.reply, match dev case Emmc => 5 case Ms => 9 case Gc => 13, 0, error)
               && ReadError(error, dev in pf.ready, st.driver.up, env)
               && (st.server.up ==> sv.reply[12..] == sv.st.server.mem)
               && (error != 0 ==> sv.st.server == st.server)
               && (error == 0 && |st.driver.mem| == |st.server.mem| ==> sv.st.server.mem == sv.st.driver.mem)
  {
    hide Header, Word, Sectors;
    var sv := Serve(pf, st, ReadCluster(dev, cluster), env);
    var c := ReadClusterStep(pf, st, dev, cluster, env);
    ServeKeepsStateOk(pf, st, ReadCluster(dev, cluster), env);
    HeaderSays(Code(ReadCluster(dev, cluster)), 0, c.code, Payload(c.st.server, env));
    assert sv.reply[12..] == Payload(c.st.server, env);
  }

  /** The driver's block holds the sectors as soon as they are read, whether or not they can be copied out, and is
      otherwise left alone. */
  lemma ReadClusterLoads(pf: Platform, st: State, dev: Device, cluster: int32, env: Env)
    requires StateOk(st)
    ensures var sv, n := Serve(pf, st, ReadCluster(dev, cluster), env), st.driver.sectorsPerCluster;
            && (dev in pf.ready && st.driver.up && env.read >= 0 && HasRoom(0x200, n) ==>
                  n >= 0 && sv.st.driver == st.driver.(mem := Sectors(pf, dev, I32(n * cluster), n)))
            && (dev !in pf.ready || !st.driver.up || env.read < 0 ==> sv.st.driver == st.driver)
  {
    hide Header;
    var n := st.driver.sectorsPerCluster;
    if dev in pf.ready && st.driver.up && env.read >= 0 && HasRoom(0x200, n) {
      RoomExactly(st.driver);
      OverlayFits(st.driver.mem, Sectors(pf, dev, I32(n * cluster), n));
    }
  }

  lemma OverlayFits(m: seq<byte>, data: seq<byte>)
    requires |data| == |m|
    ensures Overlay(m, data) == data
  {
  }

  /** A body that came up short is reported as the server's own error -1, for a sector read with zeros after it. */
  lemma AbortAnswer(r: Request)
    ensures Says(AbortReply(r), Encode(r)[0], -1, 0)
    ensures |AbortReply(r)| == if r.ReadSector? then 12 + 0x200 else 12
    ensures forall i :: 12 <= i < |AbortReply(r)| ==> AbortReply(r)[i] == 0
  {
    hide Header, Word, Body;
    SmallWord(Code(r));
    assert Encode(r)[0] == Le32(Code(r))[0];
    HeaderSays(Code(r), -1, 0, if r.ReadSector? then Zeros() else []);
    assert Header(Code(r), -1, 0) + [] == Header(Code(r), -1, 0);
  }

  // ---------- what a served word reads ----------

  /** The command words 4, 8 and 12 read a sector of the internal storage, the memory card and the game card, whose
      number follows the word. */
  lemma SectorWordReads(pf: Platform, st: State, r: Request, env: Env, dev: Device)
    requires Encode(r)[..4] == [match dev case Emmc => 4 case Ms => 8 case Gc => 12, 0, 0, 0]
    ensures |Encode(r)| == 8 && |Serve(pf, st, r, env).reply| == 12 + 0x200
    ensures Word(Serve(pf, st, r, env).reply, 8) == 0 ==>
              Serve(pf, st, r, env).reply[12..] == pf.disk(dev, Word(Encode(r), 4))
  {
    hide Serve, Encode, Word;
    assert Encode(r)[0] == Encode(r)[..4][0];
    CommandBytes(r);
    RequestFields(r);
    ReadSectorAnswer(pf, st, dev, Word(Encode(r), 4), env);
  }

  /** And 5, 9 and 13 a cluster, from pools that agree and have room for it. */
  lemma ClusterWordReads(pf: Platform, st: State, r: Request, env: Env, dev: Device)
    requires Encode(r)[..4] == [match dev case Emmc => 5 case Ms => 9 case Gc => 13, 0, 0, 0]
    requires PoolInv(st) && HasRoom(0x200, st.server.sectorsPerCluster)
    ensures |Encode(r)| == 8 && |Serve(pf, st, r, env).reply| >= 12
    ensures var n := st.server.sectorsPerCluster;
            Word(Serve(pf, st, r, env).reply, 8) == 0 ==>
              n >= 0 && Serve(pf, st, r, env).reply[12..] == Sectors(pf, dev, I32(n * Word(Encode(r), 4)), n)
  {
    hide Encode, Word, Sectors, Header;
    assert Encode(r)[0] == Encode(r)[..4][0];
    CommandBytes(r);
    RequestFields(r);
    var cluster := Word(Encode(r), 4);
    ReadClusterAnswer(pf, st, dev, cluster, env);
    if Word(Serve(pf, st, r, env).reply, 8) == 0 {
      StepServed(pf, st, dev, cluster, env);
      ClusterFillsPool(pf, st, dev, cluster, env);
    }
  }

  lemma StepServed(pf: Platform, st: State, dev: Device, cluster: int32, env: Env)
    ensures Serve(pf, st, ReadCluster(dev, cluster), env).st == ReadClusterStep(pf, st, dev, cluster, env).st
    ensures 12 <= |Serve(pf, st, ReadCluster(dev, cluster), env).reply|
    ensures Word(Serve(pf, st, ReadCluster(dev, cluster), env).reply, 8)
             == ReadClusterStep(pf, st, dev, cluster, env).code
  {
    hide Header, Word, Sectors, ReadClusterStep;
    var c := ReadClusterStep(pf, st, dev, cluster, env);
    HeaderSays(Code(ReadCluster(dev, cluster)), 0, c.code, Payload(c.st.server, env));
  }

  /** Byte j of the k-th sector of a cluster. */
  lemma {:induction false} SectorsAt(pf: Platform, dev: Device, first: int, n: nat, k: nat, j: nat)
    requires k < n && j < 0x200
    ensures 0x200 * k + j < |Sectors(pf, dev, first, n)|
    ensures Sectors(pf, dev, first, n)[0x200 * k + j] == pf.disk(dev, first + k)[j]
  {
    if k < n - 1 { SectorsAt(pf, dev, first, n - 1, k, j); }
  }

  // ---------- what a cluster write leaves behind ----------

  /** The data of a cluster write ends up in the server's pool, whatever the driver says, ... */
  lemma WriteFillsPool(pf: Platform, st: State, r: Request, env: Env)
    requires StateOk(st) && r.WriteCluster? && st.server.up && WellFormed(st, r)
    ensures Serve(pf, st, r, env).st == st.(server := st.server.(mem := r.data))
  {
  }

  /** ... so a cluster read that fails after it brings the data back as if it were the cluster ... */
  lemma FailedReadEchoes(pf: Platform, st: State, r: Request, env: Env, dev: Device, cluster: int32, env': Env)
    requires StateOk(st) && r.WriteCluster? && st.server.up && WellFormed(st, r)
    ensures var reply := Serve(pf, Serve(pf, st, r, env).st, ReadCluster(dev, cluster), env').reply;
            12 <= |reply| && (Word(reply, 8) != 0 ==> reply[12..] == r.data)
  {
    hide Serve, Word;
    WriteFillsPool(pf, st, r, env);
    ServeKeepsStateOk(pf, st, r, env);
    ReadClusterAnswer(pf, Serve(pf, st, r, env).st, dev, cluster, env');
  }

  /** ... and a torn one leaves its first part, with the rest of the block as it was. */
  lemma TornWriteLeaves(p: Pool, data: seq<byte>, torn: seq<byte>)
    requires torn <= data && |data| == |p.mem|
    ensures Loaded(p, torn) == p.(mem := torn + p.mem[|torn|..])
  {
  }
}
