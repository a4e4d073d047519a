/** The two programs together: the client and the server run on the two ends of a connection. Each has received a
    start of what the other sends; whatever else the network did is in the scripts. */
module EndToEnd {
  import opened Words
  import opened Wire
  import opened Protocol
  import opened Sockets
  import opened Sessions
  import opened PoolInvariant
  import opened DumpPlan
  import opened Mbr
  import opened ClientModule
  import opened ServerModule
  import opened Dump
  import opened DumpProgress

  predicate NoClusterWrites(reqs: seq<Request>) { forall k :: 0 <= k < |reqs| ==> !reqs[k].WriteCluster? }

  lemma ReadsAreWellFormed(pf: Platform, st: State, reqs: seq<Request>, envs: seq<Env>)
    requires NoClusterWrites(reqs)
    ensures WellFormedRun(pf, st, reqs, envs)
  {
  }

  lemma DumpHasNoWrites(pre: seq<Request>, dev: Device, offset: uint32, size: uint32)
    requires Preliminary(pre)
    ensures NoClusterWrites(pre + DumpRequests(dev, offset, size) + [Deinit])
  {
    var reqs := pre + DumpRequests(dev, offset, size);
    DumpIsReading(pre, dev, offset, size);
    forall k | 0 <= k < |reqs + [Deinit]|
      ensures !(reqs + [Deinit])[k].WriteCluster?
    {
      if k < |reqs| { assert OfDump(reqs[k]); }
    }
  }

  /** What the file is to be: the partition, but for the last sector of a dump whose last request was torn. */
  function FileToBe(pf: Platform, dev: Device, offset: uint32, size: uint32, torn: bool): seq<byte> {
    if torn && size > 0 then Sectors(pf, dev, offset, size - 1) + Zeros() else Sectors(pf, dev, offset, size)
  }

  /** The kernel obliges, the device is there, the server's pool is down, and the network lets both sides get through:
      the requests "all" reach the server, and what it answers reaches the client. */
  ghost predicate GoodDay(pf: Platform, st0: State, dev: Device, all: seq<Request>, envs: seq<Env>,
                          serverIn: seq<byte>, serverScript: seq<int>, emitted: seq<byte>,
                          clientIn: seq<byte>, clientScript: seq<int>, clientLive: bool)
  {
    && !st0.server.up && dev in pf.ready && AllObliging(envs) && |all| <= |envs|
    && Arrived(pf, st0, all, envs, [], 0, serverIn, serverScript, true)
    && clientIn == emitted && clientLive && Generous(clientScript, CallsFor(all))
  }

  /** A dump that finished, seen from both ends. */
  lemma FinishedFile(pf: Platform, st0: State, pre: seq<Request>, dev: Device, offset: uint32, size: uint32,
                     envs: seq<Env>, session: Session, st: State, emitted: seq<byte>, frames: seq<seq<byte>>,
                     clientIn: seq<byte>)
    requires PoolInv(st0) && Preliminary(pre) && Splittable(offset, size)
    requires Serves(pf, st0, pre + DumpRequests(dev, offset, size) + [Deinit], envs, session, st, emitted)
    requires Received(pre + DumpRequests(dev, offset, size), frames)
             && Whole(pre + DumpRequests(dev, offset, size), frames)
    requires Flatten(frames) <= clientIn <= emitted
    ensures Finished(pf, st0, pre, dev, offset, size, envs, session, st, emitted, frames)
    ensures |pre| <= |frames| && |frames[|pre|..]| == |DumpRequests(dev, offset, size)|
    ensures Delivered(DumpRequests(dev, offset, size), frames[|pre|..])
         == FileToBe(pf, dev, offset, size, LastSectorTorn(pre + DumpRequests(dev, offset, size), session))
  {
    hide Serves, Received, DumpRequests, LastSectorTorn, Splittable, Delivered, Flatten, Sectors;
    DumpIsPartition(pf, st0, pre, dev, offset, size, envs, session, st, emitted, frames);
  }

  /** On a good day what the server emits is what the client waits for, and nothing was torn. */
  lemma GoodDayComes(pf: Platform, st0: State, pre: seq<Request>, dev: Device, offset: uint32, size: uint32,
                     envs: seq<Env>, serverIn: seq<byte>, serverScript: seq<int>, session: Session, emitted: seq<byte>,
                     clientIn: seq<byte>, clientScript: seq<int>, clientLive: bool)
    requires PoolInv(st0) && Preliminary(pre) && forall k :: 0 <= k < |pre| ==> Servable(pf, pre[k], false)
    requires GoodDay(pf, st0, dev, pre + DumpRequests(dev, offset, size) + [Deinit], envs,
                     serverIn, serverScript, emitted, clientIn, clientScript, clientLive)
    requires Complete(pf, st0, pre + DumpRequests(dev, offset, size) + [Deinit], envs, session, emitted)
    ensures Coming(pre + DumpRequests(dev, offset, size) + [Deinit], 0, clientIn, clientScript, clientLive)
    ensures emitted == Replies(pf, st0, pre + DumpRequests(dev, offset, size) + [Deinit], envs)
    ensures !LastSectorTorn(pre + DumpRequests(dev, offset, size), session)
  {
    hide DumpRequests, StaysOpen, Awaited, Replies, Servable, PoolInv, Preliminary, AllObliging, Arrived;
    var all := pre + DumpRequests(dev, offset, size) + [Deinit];
    HealthyDumpFinishes(pf, st0, pre, dev, offset, size, envs);
    assert all[0..] == all;
  }

  lemma GoodDayArrived(pf: Platform, st0: State, dev: Device, all: seq<Request>, envs: seq<Env>,
                       serverIn: seq<byte>, serverScript: seq<int>, emitted: seq<byte>,
                       clientIn: seq<byte>, clientScript: seq<int>, clientLive: bool)
    requires GoodDay(pf, st0, dev, all, envs, serverIn, serverScript, emitted, clientIn, clientScript, clientLive)
    ensures Arrived(pf, st0, all, envs, [], 0, serverIn, serverScript, true) && clientIn == emitted
  {
  }

  lemma NotTorn(pf: Platform, dev: Device, offset: uint32, size: uint32)
    ensures FileToBe(pf, dev, offset, size, false) == Sectors(pf, dev, offset, size)
  {
  }

  /** The client dumps a partition from the server: what is in the file when it finishes, and that on a good day it
      finishes. */
  method RunDump(server: Server, client: Client, dev: Device, offset: uint32, size: uint32, envs: seq<Env>)
    returns (status: Status, file: seq<byte>, ghost frames: seq<seq<byte>>, ghost session: Session)
    requires server.Valid() && PoolInv(server.State()) && client.socket != server.cliSock
    requires server.cliSock.live && server.cliSock.incoming <= EncodeAll(DumpRequests(dev, offset, size) + [Deinit])
    modifies server.Repr(), client.socket
    ensures old(server.cliSock.outgoing) <= server.cliSock.outgoing
    ensures var reqs := DumpRequests(dev, offset, size);
            var emitted := server.cliSock.outgoing[|old(server.cliSock.outgoing)|..];
            && (status == Done && old(client.socket.incoming) <= emitted && Whole(reqs, frames)
                && Splittable(offset, size) ==>
                  file == FileToBe(server.driver.platform, dev, offset, size, LastSectorTorn(reqs, session)))
            && (status == Done ==> client.socket.outgoing == old(client.socket.outgoing) + EncodeAll(reqs + [Deinit]))
            && (GoodDay(server.driver.platform, old(server.State()), dev, reqs + [Deinit], envs,
                        old(server.cliSock.incoming), old(server.cliSock.script), emitted,
                        old(client.socket.incoming), old(client.socket.script), old(client.socket.live)) ==>
                  && status == Done
                  && (Splittable(offset, size) ==> file == Sectors(server.driver.platform, dev, offset, size)))
  {
    hide Server.Valid, Server.State, PoolInv, DumpRequests, EncodeAll, LastSectorTorn, Splittable, Whole, GoodDay,
         WellFormedRun, Serves, Complete, Arrived, Coming, Received, Delivered, Flatten, FileToBe, Sectors,
         NoClusterWrites;
    ghost var pf, st0 := server.driver.platform, server.State();
    ghost var out0, serverIn, serverScript := server.cliSock.outgoing, server.cliSock.incoming, server.cliSock.script;
    ghost var clientIn, clientScript, clientLive := client.socket.incoming, client.socket.script, client.socket.live;
    ghost var reqs := DumpRequests(dev, offset, size);
    DumpHasNoWrites([], dev, offset, size);
    assert [] + reqs == reqs;
    ReadsAreWellFormed(pf, st0, reqs + [Deinit], envs);
    session := server.ReceiveCommands(envs, reqs + [Deinit], []);
    ghost var st, emitted := server.State(), server.cliSock.outgoing[|out0|..];
    status, file, frames := client.DumpPartition(dev, offset, size);
    if GoodDay(pf, st0, dev, reqs + [Deinit], envs, serverIn, serverScript, emitted, clientIn, clientScript,
               clientLive) {
      GoodDayArrived(pf, st0, dev, reqs + [Deinit], envs, serverIn, serverScript, emitted, clientIn, clientScript,
                     clientLive);
      GoodDayComes(pf, st0, [], dev, offset, size, envs, serverIn, serverScript, session, emitted,
                   clientIn, clientScript, clientLive);
      NotTorn(pf, dev, offset, size);
    }
    if status == Done && clientIn <= emitted && Whole(reqs, frames) && Splittable(offset, size) {
      FinishedFile(pf, st0, [], dev, offset, size, envs, session, st, emitted, frames, clientIn);
      assert frames[0..] == frames;
    }
  }

  /** A session starts with the greeting and the device's first sector. */
  lemma FirstReplies(pf: Platform, st0: State, dev: Device, rest: seq<Request>, envs: seq<Env>)
    requires dev in pf.ready && AllObliging(envs) && |rest| + 2 <= |envs|
    ensures var emitted := Replies(pf, st0, [Ping, ReadSector(dev, 0)] + rest, envs);
            && |emitted| >= 34 + SECTOR && emitted[12..22] == GREETING && emitted[34..34 + SECTOR] == pf.disk(dev, 0)
  {
    hide Header, Replies, After;
    var reqs := [Ping, ReadSector(dev, 0)] + rest;
    var emitted := Replies(pf, st0, reqs, envs);
    RepliesStart(pf, st0, reqs, envs);
    RunSnoc(pf, st0, reqs, envs, 0);
    RunSnoc(pf, st0, reqs, envs, 1);
    RepliesPrefix(pf, st0, reqs, envs, 2, |reqs|);
    assert reqs[..|reqs|] == reqs;
    var a, b := Header(0, 0, 0) + GREETING, Header(Code(ReadSector(dev, 0)), 0, 0) + pf.disk(dev, 0);
    assert Replies(pf, st0, reqs[..2], envs) == a + b;
    assert emitted[..34 + SECTOR] == a + b;
    assert emitted[12..22] == (a + b)[12..22] && emitted[34..34 + SECTOR] == (a + b)[34..34 + SECTOR];
  }

  lemma RepliesStart(pf: Platform, st0: State, reqs: seq<Request>, envs: seq<Env>)
    ensures Replies(pf, st0, reqs[..0], envs) == []
  {
  }

  /** The partition of a device that its own table describes. */
  function EntryOf(pf: Platform, dev: Device, pick: Pick): PartitionEntry
    requires pick.index < PARTITIONS
  {
    Entry(Parse(pf.disk(dev, 0)), pick)
  }

  /** What a healthy server emits in a whole session is what the client needs to finish one. */
  lemma GoodDeviceComes(pf: Platform, st0: State, dev: Device, pick: Pick, e: PartitionEntry, envs: seq<Env>,
                        serverIn: seq<byte>, serverScript: seq<int>, session: Session, emitted: seq<byte>,
                        clientIn: seq<byte>, clientScript: seq<int>, clientLive: bool)
    requires PoolInv(st0) && pick.index < PARTITIONS && e == EntryOf(pf, dev, pick) && e.partitionType != 0
    requires GoodDay(pf, st0, dev, DeviceRequests(dev, e.partitionOffset, e.partitionSize) + [Deinit], envs,
                     serverIn, serverScript, emitted, clientIn, clientScript, clientLive)
    requires Complete(pf, st0, DeviceRequests(dev, e.partitionOffset, e.partitionSize) + [Deinit], envs, session,
                      emitted)
    ensures DeviceComing(dev, pick, clientIn, clientScript, clientLive) && NamedEntry(pick, clientIn) == e
    ensures !LastSectorTorn(DeviceRequests(dev, e.partitionOffset, e.partitionSize), session)
  {
    hide DumpRequests, Complete, Coming, Replies, PoolInv, Parse, LastSectorTorn, AllObliging;
    var pre, dump := [Ping, ReadSector(dev, 0)], DumpRequests(dev, e.partitionOffset, e.partitionSize);
    assert DeviceRequests(dev, e.partitionOffset, e.partitionSize) == pre + dump;
    assert pre + dump + [Deinit] == pre + (dump + [Deinit]);
    GoodDayComes(pf, st0, pre, dev, e.partitionOffset, e.partitionSize, envs, serverIn, serverScript, session, emitted,
                 clientIn, clientScript, clientLive);
    FirstReplies(pf, st0, dev, dump + [Deinit], envs);
  }

  lemma EntryIs(pf: Platform, dev: Device, pick: Pick)
    requires pick.index < PARTITIONS
    ensures EntryOf(pf, dev, pick) == Entry(Parse(pf.disk(dev, 0)), pick)
  {
  }

  lemma DeviceReads(dev: Device, offset: uint32, size: uint32)
    ensures NoClusterWrites(DeviceRequests(dev, offset, size) + [Deinit])
  {
    hide DumpRequests, NoClusterWrites;
    DumpHasNoWrites([Ping, ReadSector(dev, 0)], dev, offset, size);
  }

  /** A finished session seen from both ends: the client has seen the device's first sector, and if it went by entry
      e, its file is the partition that entry describes. */
  lemma DeviceFile(pf: Platform, st0: State, dev: Device, pick: Pick, e: PartitionEntry, envs: seq<Env>,
                   session: Session, st: State, emitted: seq<byte>, frames: seq<seq<byte>>, clientIn: seq<byte>)
    requires PoolInv(st0) && pick.index < PARTITIONS
    requires Serves(pf, st0, DeviceRequests(dev, e.partitionOffset, e.partitionSize) + [Deinit], envs, session, st,
                    emitted)
    requires Received(DeviceRequests(dev, e.partitionOffset, e.partitionSize), frames)
             && Whole(DeviceRequests(dev, e.partitionOffset, e.partitionSize), frames)
    requires Flatten(frames) <= clientIn <= emitted
    ensures 2 <= |frames| && |frames[1]| >= 12 && frames[1][12..] == pf.disk(dev, 0)
    ensures |frames[2..]| == |DumpRequests(dev, e.partitionOffset, e.partitionSize)|
    ensures Splittable(e.partitionOffset, e.partitionSize) ==>
              Delivered(DumpRequests(dev, e.partitionOffset, e.partitionSize), frames[2..])
              == FileToBe(pf, dev, e.partitionOffset, e.partitionSize,
                          LastSectorTorn(DeviceRequests(dev, e.partitionOffset, e.partitionSize), session))
  {
    hide Serves, Received, DumpRequests, LastSectorTorn, Splittable, Delivered, Flatten, FileToBe, PoolInv;
    var pre := [Ping, ReadSector(dev, 0)];
    DeviceIsPreliminary(dev, e.partitionOffset, e.partitionSize);
    FirstSectorIsDisk(pf, st0, dev, e.partitionOffset, e.partitionSize, envs, session, st, emitted, frames);
    if Splittable(e.partitionOffset, e.partitionSize) {
      FinishedFile(pf, st0, pre, dev, e.partitionOffset, e.partitionSize, envs, session, st, emitted, frames, clientIn);
    }
  }

  /** A whole session: greeting, first sector, and the dump of the partition e that the client goes by. */
  method RunDevice(server: Server, client: Client, dev: Device, pick: Pick, envs: seq<Env>, ghost e: PartitionEntry)
    returns (status: Status, file: seq<byte>, ghost frames: seq<seq<byte>>, ghost session: Session)
    requires server.Valid() && PoolInv(server.State()) && client.socket != server.cliSock && pick.index < PARTITIONS
    requires server.cliSock.live
    requires server.cliSock.incoming <= EncodeAll(DeviceRequests(dev, e.partitionOffset, e.partitionSize) + [Deinit])
    modifies server.Repr(), client.socket
    ensures old(server.cliSock.outgoing) <= server.cliSock.outgoing
    ensures status == Done ==> 2 <= |frames| && |frames[1]| == 12 + SECTOR
    ensures var pf, reqs := server.driver.platform, DeviceRequests(dev, e.partitionOffset, e.partitionSize);
            var emitted := server.cliSock.outgoing[|old(server.cliSock.outgoing)|..];
            && (status == Done && Entry(Parse(frames[1][12..]), pick) == e
                && old(client.socket.incoming) <= emitted && Whole(reqs, frames) ==>
                  && e == EntryOf(pf, dev, pick) && e.partitionType != 0
                  && (Splittable(e.partitionOffset, e.partitionSize) ==>
                        file == FileToBe(pf, dev, e.partitionOffset, e.partitionSize, LastSectorTorn(reqs, session))))
            && (e == EntryOf(pf, dev, pick) && e.partitionType != 0
                && GoodDay(pf, old(server.State()), dev, reqs + [Deinit], envs,
                           old(server.cliSock.incoming), old(server.cliSock.script), emitted,
                           old(client.socket.incoming), old(client.socket.script), old(client.socket.live)) ==>
                  && status == Done
                  && (Splittable(e.partitionOffset, e.partitionSize) ==>
                        file == Sectors(pf, dev, e.partitionOffset, e.partitionSize)))
  {
    hide Server.Valid, Server.State, PoolInv, DumpRequests, DeviceRequests, EncodeAll, LastSectorTorn, Splittable,
         Whole, GoodDay, WellFormedRun, Serves, Complete, Arrived, DeviceComing, NamedEntry, Received, Delivered,
         Flatten, FileToBe, Sectors, NoClusterWrites, Preliminary, Parse, EntryOf;
    ghost var pf, st0 := server.driver.platform, server.State();
    ghost var out0, serverIn, serverScript := server.cliSock.outgoing, server.cliSock.incoming, server.cliSock.script;
    ghost var clientIn, clientScript, clientLive := client.socket.incoming, client.socket.script, client.socket.live;
    ghost var reqs := DeviceRequests(dev, e.partitionOffset, e.partitionSize);
    DeviceReads(dev, e.partitionOffset, e.partitionSize);
    ReadsAreWellFormed(pf, st0, reqs + [Deinit], envs);
    session := server.ReceiveCommands(envs, reqs + [Deinit], []);
    ghost var st, emitted := server.State(), server.cliSock.outgoing[|out0|..];
    var rc;
    rc, status, file, frames := client.DumpDevice(dev, pick);
    if e == EntryOf(pf, dev, pick) && e.partitionType != 0
       && GoodDay(pf, st0, dev, reqs + [Deinit], envs, serverIn, serverScript, emitted, clientIn, clientScript,
                  clientLive) {
      GoodDayArrived(pf, st0, dev, reqs + [Deinit], envs, serverIn, serverScript, emitted, clientIn, clientScript,
                     clientLive);
      GoodDeviceComes(pf, st0, dev, pick, e, envs, serverIn, serverScript, session, emitted,
                      clientIn, clientScript, clientLive);
      NotTorn(pf, dev, e.partitionOffset, e.partitionSize);
    }
    if status == Done && Entry(Parse(frames[1][12..]), pick) == e && clientIn <= emitted && Whole(reqs, frames) {
      DeviceFile(pf, st0, dev, pick, e, envs, session, st, emitted, frames, clientIn);
      EntryIs(pf, dev, pick);
    }
  }
}
