/** The dump client (client/psvemmc/psvemmc.cpp). */
module ClientModule {
  import opened Words
  import opened Memory
  import opened Wire
  import opened Sockets
  import opened DumpPlan
  import opened Mbr

  /** Finished without error; failed, and the connection is closed; or still waiting when the observed run ends. */
  datatype Status = Done | Failed | Pending

  /** The bytes of cluster data a request makes the client wait for. */
  const CLUSTER: nat := 0x1000

  /** How many bytes of a response are data from the device. */
  function DataLength(r: Request): nat {
    match r
    case ReadSector(_, _) => SECTOR
    case ReadCluster(_, _) => CLUSTER
    case _ => 0
  }

  /** How many bytes the client takes off the stream for the response to a request of a dump. */
  function FrameLength(r: Request): nat {
    match r
    case Ping => 22
    case _ => 12 + DataLength(r)
  }

  /** The client's check of a response header. Both error words are unsigned there, so "less than 0" never holds:
      only a read looks at an error, the driver's, by comparing it with 0. */
  predicate Accepts(r: Request, header: seq<byte>)
    requires |header| == 12
  {
    && FromLe32(header[..4]) == Code(r)
    && (r.ReadSector? || r.ReadCluster? ==> FromLe32(header[8..]) == 0)
  }

  /** A start of a response that can pass that check once stale bytes complete it: as far as it goes it has the
      command's code, and, for a read, no driver's error. */
  predicate Passes(r: Request, piece: seq<byte>) {
    && (forall k :: 0 <= k < |piece| && k < 4 ==> piece[k] == Le32(Code(r))[k])
    && (r.ReadSector? || r.ReadCluster? ==> forall k :: 8 <= k < |piece| && k < 12 ==> piece[k] == 0)
  }

  lemma AcceptedStart(r: Request, header: seq<byte>, piece: seq<byte>)
    requires 12 <= |header| && Accepts(r, header[..12]) && piece <= header
    ensures Passes(r, piece)
  {
    hide FromLe32, Le32;
    FromLe32RoundTrip(header[..12][..4]);
    FromLe32RoundTrip(header[..12][8..]);
    if r.ReadSector? || r.ReadCluster? { ZeroWord(); }
    assert forall k :: 0 <= k < |piece| && k < 4 ==> piece[k] == header[..12][..4][k];
    assert forall k :: 8 <= k < |piece| && k < 12 ==> piece[k] == header[..12][8..][k - 8];
  }

  lemma ZeroWord()
    ensures Le32(0) == [0, 0, 0, 0]
  {
  }

  /** Those are exactly the pieces for which there are such stale bytes. */
  lemma PassesExactly(r: Request, piece: seq<byte>)
    requires |piece| <= 12
    ensures Passes(r, piece) <==> exists stale: seq<byte> :: |stale| == 12 && Accepts(r, Patched(stale, 0, piece))
  {
    if Passes(r, piece) {
      var stale := Le32(Code(r)) + Le32(0) + Le32(0);
      var header := Patched(stale, 0, piece);
      ZeroWord();
      Le32RoundTrip(Code(r));
      Le32RoundTrip(0);
      assert header[..4] == Le32(Code(r));
      if r.ReadSector? || r.ReadCluster? { assert header[8..] == Le32(0); }
    }
    forall stale: seq<byte> | |stale| == 12 && Accepts(r, Patched(stale, 0, piece))
      ensures Passes(r, piece)
    {
      var header := Patched(stale, 0, piece);
      assert header[..12] == header;
      AcceptedStart(r, header, piece);
    }
  }

  function Flatten(frames: seq<seq<byte>>): seq<byte> {
    if frames == [] then [] else Flatten(frames[..|frames| - 1]) + frames[|frames| - 1]
  }

  /** The client took this frame off the stream as the response to r: a header that one recv was to bring may have come
      in part, and then passes; the rest is complete, and a whole response is an acceptable one. */
  predicate FrameOk(r: Request, frame: seq<byte>) {
    && DataLength(r) <= |frame| <= FrameLength(r)
    && (r.ReadSector? ==> |frame| == FrameLength(r))
    && (|frame| == FrameLength(r) ==> Accepts(r, frame[..12]))
    && Passes(r, frame[..|frame| - DataLength(r)])
  }

  /** The client sent reqs, and took these frames off the stream as their responses. */
  ghost predicate Received(reqs: seq<Request>, frames: seq<seq<byte>>) {
    |frames| == |reqs| && forall k :: 0 <= k < |reqs| ==> FrameOk(reqs[k], frames[k])
  }

  /** Every header came in one piece. */
  ghost predicate Whole(reqs: seq<Request>, frames: seq<seq<byte>>) {
    |frames| == |reqs| && forall k :: 0 <= k < |reqs| ==> |frames[k]| == FrameLength(reqs[k])
  }

  /** What a response brought: its last bytes, as many as the request makes the client wait for. */
  function Data(r: Request, frame: seq<byte>): seq<byte> {
    if |frame| < DataLength(r) then [] else frame[|frame| - DataLength(r)..]
  }

  /** What the responses brought, in order. */
  function Delivered(reqs: seq<Request>, frames: seq<seq<byte>>): seq<byte>
    requires |frames| == |reqs|
  {
    if reqs == [] then []
    else
      var n := |reqs| - 1;
      Delivered(reqs[..n], frames[..n]) + Data(reqs[n], frames[n])
  }

  /** Where a conversation stands: the requests so far, the frames taken off the stream in0 as their responses, what
      they brought, and what is left of the stream. */
  ghost predicate Conversation(reqs: seq<Request>, frames: seq<seq<byte>>, file: seq<byte>, in0: seq<byte>,
                               left: seq<byte>) {
    Received(reqs, frames) && in0 == Flatten(frames) + left && file == Delivered(reqs, frames)
  }

  lemma ConversationStep(reqs: seq<Request>, frames: seq<seq<byte>>, file: seq<byte>, in0: seq<byte>, left: seq<byte>,
                         r: Request, frame: seq<byte>, left': seq<byte>)
    requires Conversation(reqs, frames, file, in0, left) && left == frame + left' && FrameOk(r, frame)
    ensures Conversation(reqs + [r], frames + [frame], file + Data(r, frame), in0, left')
  {
    hide FrameOk, Data;
    var rs, fs := reqs + [r], frames + [frame];
    assert rs[..|reqs|] == reqs && fs[..|frames|] == frames;
    assert Flatten(frames) + (frame + left') == Flatten(frames) + frame + left';
  }

  lemma ConversationStart(r: Request, frame: seq<byte>, in0: seq<byte>, left: seq<byte>)
    requires r.Init? && FrameOk(r, frame) && in0 == frame + left
    ensures Conversation([r], [frame], [], in0, left)
  {
    assert [r][..0] == [] && [frame][..0] == [];
  }

  lemma ConversationEnd(reqs: seq<Request>, frames: seq<seq<byte>>, file: seq<byte>, in0: seq<byte>, left: seq<byte>)
    requires Conversation(reqs, frames, file, in0, left)
    ensures Received(reqs, frames) && Flatten(frames) <= in0 && file == Delivered(reqs, frames)
  {
  }

  // ---------- responses that come as the client expects them ----------

  /** The next response has arrived, whole and acceptable, and the connection gets as many calls through as it has
      bytes, and one more for the request. */
  predicate Due(r: Request, incoming: seq<byte>, script: seq<int>, live: bool) {
    live && Generous(script, 1 + FrameLength(r)) && |incoming| >= FrameLength(r) && Accepts(r, incoming[..12])
  }

  /** The calls that takes for a sequence of requests. */
  function CallsFor(reqs: seq<Request>): nat {
    if reqs == [] then 0 else 1 + FrameLength(reqs[0]) + CallsFor(reqs[1..])
  }

  /** The stream starts with acceptable responses to reqs, in order. */
  predicate Awaited(reqs: seq<Request>, incoming: seq<byte>) {
    reqs == []
    || (|incoming| >= FrameLength(reqs[0]) && Accepts(reqs[0], incoming[..12])
        && Awaited(reqs[1..], incoming[FrameLength(reqs[0])..]))
  }

  /** The responses from request k on have arrived, and the connection gets enough calls through. */
  ghost predicate Coming(reqs: seq<Request>, k: nat, incoming: seq<byte>, script: seq<int>, live: bool) {
    live && k <= |reqs| && Awaited(reqs[k..], incoming) && Generous(script, CallsFor(reqs[k..]))
  }

  lemma ComingDue(reqs: seq<Request>, k: nat, incoming: seq<byte>, script: seq<int>, live: bool)
    requires Coming(reqs, k, incoming, script, live) && k < |reqs|
    ensures Due(reqs[k], incoming, script, live)
  {
    hide Accepts, FrameLength;
    assert reqs[k..][0] == reqs[k];
  }

  lemma ComingNext(reqs: seq<Request>, k: nat, incoming: seq<byte>, script: seq<int>, live: bool, frame: seq<byte>,
                   incoming': seq<byte>, script': seq<int>)
    requires Coming(reqs, k, incoming, script, live) && k < |reqs|
    requires incoming == frame + incoming' && |frame| == FrameLength(reqs[k])
    requires Generous(script', |script| - 1 - FrameLength(reqs[k]))
    ensures Coming(reqs, k + 1, incoming', script', true)
  {
    hide Accepts, FrameLength;
    assert reqs[k..][0] == reqs[k] && reqs[k..][1..] == reqs[k + 1..];
    assert incoming[|frame|..] == incoming';
  }

  lemma EncodeOne(r: Request)
    ensures EncodeAll([r]) == Wire.Encode(r)
  {
    assert [] + [r] == [r];
    EncodeAllSnoc([], r);
  }

  lemma ClusterReadsNone(dev: Device, offset: uint32)
    ensures [INIT] + ClusterReads(dev, offset, 0) == [INIT]
  {
  }

  lemma ClusterReadsNext(dev: Device, offset: uint32, i: nat)
    ensures [INIT] + ClusterReads(dev, offset, i + 1)
         == ([INIT] + ClusterReads(dev, offset, i)) + [ReadCluster(dev, I32(ClusterOffset(offset) + i))]
  {
  }

  lemma {:induction false} ClusterReadsPrefix(dev: Device, offset: uint32, i: nat, n: nat)
    requires i <= n
    ensures ClusterReads(dev, offset, i) <= ClusterReads(dev, offset, n)
  {
    if i < n { ClusterReadsPrefix(dev, offset, i, n - 1); }
  }

  lemma SectorReadsStep(rs: seq<Request>, dev: Device, offset: uint32, size: uint32, i: nat)
    ensures rs + SectorReads(dev, offset, size, 0) == rs
    ensures rs + SectorReads(dev, offset, size, i + 1)
         == (rs + SectorReads(dev, offset, size, i)) + [ReadSector(dev, I32(TailOffset(offset, size) + i))]
  {
  }

  lemma {:induction false} SectorReadsPrefix(dev: Device, offset: uint32, size: uint32, i: nat, n: nat)
    requires i <= n
    ensures SectorReads(dev, offset, size, i) <= SectorReads(dev, offset, size, n)
  {
    if i < n { SectorReadsPrefix(dev, offset, size, i, n - 1); }
  }

  lemma DumpStarts(dev: Device, offset: uint32, size: uint32)
    ensures [INIT] + ClusterReads(dev, offset, Clusters(size)) <= DumpRequests(dev, offset, size)
    ensures (DumpRequests(dev, offset, size) + [Deinit])[0] == INIT
    ensures DumpRequests(dev, offset, size) <= DumpRequests(dev, offset, size) + [Deinit]
    ensures (DumpRequests(dev, offset, size) + [Deinit])[|DumpRequests(dev, offset, size)|] == Deinit
  {
  }

  lemma InitFrame()
    ensures INIT.Init? && FrameLength(INIT) == 12
  {
  }

  lemma SectorFrame(r: Request, frame: seq<byte>)
    requires r.ReadSector? && FrameOk(r, frame)
    ensures |frame| == FrameLength(r)
  {
  }

  lemma WholeInit(frame: seq<byte>)
    ensures |frame| == 12 ==> Whole([INIT], [frame])
  {
  }

  lemma WholeStep(reqs: seq<Request>, frames: seq<seq<byte>>, r: Request, frame: seq<byte>)
    requires Whole(reqs, frames) && |frame| == FrameLength(r)
    ensures Whole(reqs + [r], frames + [frame])
  {
  }

  /** The requests of a whole session up to the last read. */
  function DeviceRequests(dev: Device, offset: uint32, size: uint32): seq<Request> {
    [Ping, ReadSector(dev, 0)] + DumpRequests(dev, offset, size)
  }

  /** The partition index asked for. Only one past the table is refused: a negative one finds what lies before it. */
  datatype Pick = Pick(index: int, before: PartitionEntry)

  function Entry(m: MasterBootRecord, pick: Pick): PartitionEntry
    requires pick.index < |m.partitions|
  {
    if pick.index < 0 then pick.before else m.partitions[pick.index]
  }

  /** The table entry in the first sector, which follows the greeting and a header. */
  function NamedEntry(pick: Pick, incoming: seq<byte>): PartitionEntry
    requires pick.index < PARTITIONS && |incoming| >= 34 + SECTOR
  {
    Entry(Parse(incoming[34..34 + SECTOR]), pick)
  }

  /** Acceptable responses to a whole session have arrived, for the partition that the table among them names. */
  ghost predicate DeviceComing(dev: Device, pick: Pick, incoming: seq<byte>, script: seq<int>, live: bool)
    requires pick.index < PARTITIONS
  {
    && |incoming| >= 34 + SECTOR && incoming[12..22] == GREETING
    && var e := NamedEntry(pick, incoming);
       e.partitionType != 0
       && Coming(DeviceRequests(dev, e.partitionOffset, e.partitionSize) + [Deinit], 0, incoming, script, live)
  }

  /** The same, up to a table whose entry is empty. */
  ghost predicate EmptyComing(dev: Device, pick: Pick, incoming: seq<byte>, script: seq<int>, live: bool)
    requires pick.index < PARTITIONS
  {
    && |incoming| >= 34 + SECTOR && incoming[12..22] == GREETING
    && NamedEntry(pick, incoming).partitionType == 0
    && Coming([Ping, ReadSector(dev, 0)], 0, incoming, script, live)
  }

  lemma EmptyPingDue(dev: Device, pick: Pick, incoming: seq<byte>, script: seq<int>, live: bool)
    requires pick.index < PARTITIONS && EmptyComing(dev, pick, incoming, script, live)
    ensures Due(Ping, incoming, script, live) && incoming[12..22] == GREETING
  {
    hide Coming, Due, Parse;
    ComingDue([Ping, ReadSector(dev, 0)], 0, incoming, script, live);
  }

  lemma EmptySectorDue(dev: Device, pick: Pick, in0: seq<byte>, script0: seq<int>, live: bool, greeting: seq<byte>,
                       incoming: seq<byte>, script: seq<int>)
    requires pick.index < PARTITIONS && EmptyComing(dev, pick, in0, script0, live)
    requires in0 == greeting + incoming && |greeting| == 22 && Generous(script, |script0| - 23)
    ensures Due(ReadSector(dev, 0), incoming, script, true)
  {
    hide Coming, Due, Parse;
    var all := [Ping, ReadSector(dev, 0)];
    ComingNext(all, 0, in0, script0, live, greeting, incoming, script);
    ComingDue(all, 1, incoming, script, true);
  }

  lemma EmptyEntry(dev: Device, pick: Pick, in0: seq<byte>, script0: seq<int>, live: bool, greeting: seq<byte>,
                   sector0: seq<byte>, incoming: seq<byte>)
    requires pick.index < PARTITIONS && EmptyComing(dev, pick, in0, script0, live)
    requires in0 == greeting + (sector0 + incoming) && |greeting| == 22 && FrameOk(ReadSector(dev, 0), sector0)
    ensures Entry(Parse(Data(ReadSector(dev, 0), sector0)), pick).partitionType == 0
  {
    hide Coming, Parse, Accepts, Passes;
    assert Data(ReadSector(dev, 0), sector0) == sector0[12..] == in0[34..34 + SECTOR];
  }

  lemma PingDue(dev: Device, pick: Pick, incoming: seq<byte>, script: seq<int>, live: bool)
    requires pick.index < PARTITIONS && DeviceComing(dev, pick, incoming, script, live)
    ensures Due(Ping, incoming, script, live) && incoming[12..22] == GREETING
  {
    hide Coming, Due, Parse, DumpRequests;
    var e := NamedEntry(pick, incoming);
    ComingDue(DeviceRequests(dev, e.partitionOffset, e.partitionSize) + [Deinit], 0, incoming, script, live);
  }

  lemma SectorDue(dev: Device, pick: Pick, in0: seq<byte>, script0: seq<int>, live: bool, greeting: seq<byte>,
                  incoming: seq<byte>, script: seq<int>)
    requires pick.index < PARTITIONS && DeviceComing(dev, pick, in0, script0, live)
    requires in0 == greeting + incoming && |greeting| == 22 && Generous(script, |script0| - 23)
    ensures Due(ReadSector(dev, 0), incoming, script, true)
    ensures var e := NamedEntry(pick, in0);
            Coming(DeviceRequests(dev, e.partitionOffset, e.partitionSize) + [Deinit], 1, incoming, script, true)
  {
    hide Coming, Due, Parse, DumpRequests;
    var e := NamedEntry(pick, in0);
    var all := DeviceRequests(dev, e.partitionOffset, e.partitionSize) + [Deinit];
    assert all[0] == Ping && all[1] == ReadSector(dev, 0);
    ComingNext(all, 0, in0, script0, live, greeting, incoming, script);
    ComingDue(all, 1, incoming, script, true);
  }

  lemma DumpComing(dev: Device, pick: Pick, in0: seq<byte>, script0: seq<int>, live: bool, greeting: seq<byte>,
                   sector0: seq<byte>, incoming: seq<byte>, script: seq<int>)
    requires pick.index < PARTITIONS && DeviceComing(dev, pick, in0, script0, live)
    requires in0 == greeting + (sector0 + incoming) && |greeting| == 22 && FrameOk(ReadSector(dev, 0), sector0)
    requires Generous(script, |script0| - 36 - SECTOR)
    ensures var e := NamedEntry(pick, in0);
            && Entry(Parse(Data(ReadSector(dev, 0), sector0)), pick) == e && e.partitionType != 0
            && Coming(DumpRequests(dev, e.partitionOffset, e.partitionSize) + [Deinit], 0, incoming, script, true)
  {
    hide Coming, Due, Parse, DumpRequests, Accepts;
    var e := NamedEntry(pick, in0);
    var dump := DumpRequests(dev, e.partitionOffset, e.partitionSize) + [Deinit];
    var all := DeviceRequests(dev, e.partitionOffset, e.partitionSize) + [Deinit];
    assert all == [Ping, ReadSector(dev, 0)] + dump;
    ComingGenerous(all, in0, script0, live);
    var script1 := script0[..|script0| - 23];
    SectorDue(dev, pick, in0, script0, live, greeting, sector0 + incoming, script1);
    assert all[1] == ReadSector(dev, 0);
    ComingNext(all, 1, sector0 + incoming, script1, true, sector0, incoming, script);
    ComingShift([Ping, ReadSector(dev, 0)], dump, incoming, script);
    assert Data(ReadSector(dev, 0), sector0) == sector0[12..] == in0[34..34 + SECTOR];
  }

  lemma ComingGenerous(reqs: seq<Request>, incoming: seq<byte>, script: seq<int>, live: bool)
    requires Coming(reqs, 0, incoming, script, live)
    ensures Generous(script, CallsFor(reqs))
  {
    assert reqs[0..] == reqs;
  }

  lemma ComingShift(pre: seq<Request>, reqs: seq<Request>, incoming: seq<byte>, script: seq<int>)
    requires Coming(pre + reqs, |pre|, incoming, script, true)
    ensures Coming(reqs, 0, incoming, script, true)
  {
    assert (pre + reqs)[|pre|..] == reqs == reqs[0..];
  }

  lemma DeviceWhole(dev: Device, offset: uint32, size: uint32, greeting: seq<byte>, sector0: seq<byte>,
                    frames: seq<seq<byte>>)
    requires |greeting| == 22 && FrameOk(ReadSector(dev, 0), sector0) && Whole(DumpRequests(dev, offset, size), frames)
    ensures Whole(DeviceRequests(dev, offset, size), [greeting, sector0] + frames)
  {
    hide DumpRequests;
  }

  /** A greeting, the first sector, and then a dump. */
  lemma DeviceConversation(dev: Device, offset: uint32, size: uint32, greeting: seq<byte>, sector0: seq<byte>,
                           frames: seq<seq<byte>>, sent0: seq<byte>, sent1: seq<byte>, in0: seq<byte>, in1: seq<byte>)
    requires FrameOk(Ping, greeting) && FrameOk(ReadSector(dev, 0), sector0)
    requires sent1 == sent0 + Wire.Encode(Ping) + Wire.Encode(ReadSector(dev, 0))
    requires in0 == greeting + (sector0 + in1)
    requires Received(DumpRequests(dev, offset, size), frames) && Flatten(frames) <= in1
    ensures var fs := [greeting, sector0] + frames;
            && fs[2..] == frames
            && Received(DeviceRequests(dev, offset, size), fs)
            && Flatten(fs) <= in0
    ensures sent1 + EncodeAll(DumpRequests(dev, offset, size) + [Deinit])
         == sent0 + EncodeAll(DeviceRequests(dev, offset, size) + [Deinit])
  {
    hide FrameOk, DumpRequests, Wire.Encode;
    var pre := [Ping, ReadSector(dev, 0)];
    var fs := [greeting, sector0];
    FlattenAppend(fs, frames);
    FlattenPair(greeting, sector0);
    assert in0 == (greeting + sector0) + in1;
    var dump := DumpRequests(dev, offset, size) + [Deinit];
    assert DeviceRequests(dev, offset, size) + [Deinit] == pre + dump;
    EncodeAllAppend(pre, dump);
    assert pre == [Ping] + [ReadSector(dev, 0)];
    EncodeAllSnoc([Ping], ReadSector(dev, 0));
    EncodeOne(Ping);
  }

  lemma FlattenPair(a: seq<byte>, b: seq<byte>)
    ensures Flatten([a, b]) == a + b
  {
    var none: seq<seq<byte>> := [];
    assert [a, b][..1] == [a] && [a][..0] == none;
    assert Flatten([a]) == Flatten(none) + a;
  }

  lemma {:induction false} FlattenAppend(a: seq<seq<byte>>, b: seq<seq<byte>>)
    ensures Flatten(a + b) == Flatten(a) + Flatten(b)
  {
    if b == [] {
      assert a + b == a;
    } else {
      var n := |b| - 1;
      FlattenAppend(a, b[..n]);
      assert (a + b)[..|a + b| - 1] == a + b[..n];
    }
  }

  lemma EncodeLength(r: Request)
    requires !r.WriteSector? && !r.WriteCluster?
    ensures |Wire.Encode(r)| <= SMALL
  {
  }

  class Client {
    const socket: Socket

    constructor (socket: Socket)
      ensures this.socket == socket
    {
      this.socket := socket;
    }

    /** send of a request. */
    method SendRequest(r: Request) returns (status: Status)
      requires |Wire.Encode(r)| <= SMALL
      modifies socket
      ensures socket.incoming == old(socket.incoming) && status in {Done, Failed}
      ensures status == Done ==> socket.outgoing == old(socket.outgoing) + Wire.Encode(r)
      ensures if status == Done then old(socket.live) else !socket.live
      ensures old(socket.live) && Generous(old(socket.script), 1) ==>
                status == Done && socket.live && socket.script == old(socket.script)[1..]
    {
      var iResult := socket.SendSmall(Wire.Encode(r));
      if iResult < 0 {
        socket.Close();
        return Failed;
      }
      status := if iResult > 0 then Done else Failed;
    }

    /** A response structure received with a single recv: the rest of it keeps whatever the stack held. */
    method RecvOnce(resp: array<byte>) returns (status: Status, ghost piece: seq<byte>)
      modifies socket, resp
      ensures socket.outgoing == old(socket.outgoing) && status in {Done, Failed}
      ensures status == Failed ==> !socket.live
      ensures old(socket.incoming) == piece + socket.incoming && |piece| <= resp.Length
      ensures resp[..] == Patched(old(resp[..]), 0, piece)
      ensures old(socket.live) && Generous(old(socket.script), 1) && 0 < resp.Length <= |old(socket.incoming)|
              && resp.Length <= SMALL ==>
                status == Done && socket.live && |piece| == resp.Length && socket.script == old(socket.script)[1..]
    {
      var iResult, data := socket.Recv(resp.Length);
      piece := data;
      Store(resp, 0, data);
      if iResult < 0 {
        socket.Close();
        return Failed, piece;
      }
      status := Done;
    }

    /** The receive loops. A recv that returns 0 is not an error to them: they ask again. */
    method RecvLoop(buffer: array<byte>) returns (status: Status)
      modifies socket, buffer
      ensures socket.outgoing == old(socket.outgoing)
      ensures status == Failed ==> !socket.live
      ensures status == Done ==> old(socket.incoming) == buffer[..] + socket.incoming
      ensures old(socket.live) && Generous(old(socket.script), buffer.Length)
              && buffer.Length <= |old(socket.incoming)| ==>
                status == Done && socket.live && Generous(socket.script, |old(socket.script)| - buffer.Length)
    {
      hide Generous;
      ghost var calls := |socket.script|;
      ghost var smooth := socket.live && Generous(socket.script, buffer.Length) && buffer.Length <= |socket.incoming|;
      if smooth { GenerousAll(socket.script, buffer.Length); }
      var bytesToReceive := buffer.Length;
      var bytesWereReceived := 0;
      while bytesToReceive != bytesWereReceived
        invariant 0 <= bytesWereReceived <= bytesToReceive
        invariant socket.outgoing == old(socket.outgoing)
        invariant old(socket.incoming) == buffer[..bytesWereReceived] + socket.incoming
        invariant smooth ==> socket.live && Generous(socket.script, calls - bytesWereReceived)
        decreases |socket.script|
      {
        ghost var script := socket.script;
        if smooth { GenerousCall(script, calls - bytesWereReceived); }
        if socket.script == [] { return Pending; }
        var iResult, data := socket.Recv(bytesToReceive - bytesWereReceived);
        if iResult < 0 {
          socket.Close();
          return Failed;
        }
        if smooth { GenerousAfter(script, calls - bytesWereReceived, iResult); }
        Store(buffer, bytesWereReceived, data);
        bytesWereReceived := bytesWereReceived + iResult;
      }
      assert buffer[..] == buffer[..bytesWereReceived];
      status := Done;
    }

    /** emmc_init and emmc_deinit: the response is whatever one recv brings. */
    method Exchange(r: Request) returns (status: Status, ghost frame: seq<byte>)
      requires r.Init? || r.Deinit?
      modifies socket
      ensures status in {Done, Failed} && (status == Failed ==> !socket.live)
      ensures status == Done ==>
                && old(socket.live)
                && socket.outgoing == old(socket.outgoing) + Wire.Encode(r)
                && old(socket.incoming) == frame + socket.incoming && FrameOk(r, frame)
      ensures Due(r, old(socket.incoming), old(socket.script), old(socket.live)) ==>
                && status == Done && |frame| == FrameLength(r)
                && socket.live && Generous(socket.script, |old(socket.script)| - 1 - FrameLength(r))
    {
      hide Wire.Encode, FromLe32, Passes;
      EncodeLength(r);
      frame := [];
      status := SendRequest(r);
      if status != Done { return; }
      var resp := new byte[12];
      status, frame := RecvOnce(resp);
      if status != Done { return; }
      assert |frame| == 12 ==> resp[..4] == frame[..4] == old(socket.incoming)[..12][..4];
      if FromLe32(resp[..4]) != Code(r) {
        socket.Close();
        return Failed, frame;
      }
      assert |frame| == 12 ==> resp[..] == frame && frame[..12] == frame;
      assert resp[..][..12] == resp[..] && resp[..4] == resp[..][..4];
      AcceptedStart(r, resp[..], frame);
      assert frame[..|frame|] == frame;
    }

    /** emmc_ping: the greeting is compared, too, but a mismatch leaves the connection open. */
    method EmmcPing() returns (status: Status, ghost frame: seq<byte>)
      modifies socket
      ensures status in {Done, Failed}
      ensures status == Done ==>
                && socket.outgoing == old(socket.outgoing) + Wire.Encode(Ping)
                && old(socket.incoming) == frame + socket.incoming && FrameOk(Ping, frame)
                && (|frame| == FrameLength(Ping) ==> frame[12..] == GREETING)
      ensures Due(Ping, old(socket.incoming), old(socket.script), old(socket.live)) ==>
                && |frame| == FrameLength(Ping) && old(socket.incoming) == frame + socket.incoming
                && (status == Done <==> frame[12..] == GREETING)
                && socket.live && Generous(socket.script, |old(socket.script)| - 1 - FrameLength(Ping))
    {
      hide Wire.Encode, FromLe32, Passes;
      EncodeLength(Ping);
      frame := [];
      status := SendRequest(Ping);
      if status != Done { return; }
      var resp := new byte[22];
      status, frame := RecvOnce(resp);
      if status != Done { return; }
      assert |frame| == 22 ==> resp[..] == frame;
      assert resp[..4] == resp[..][..12][..4] && resp[12..] == resp[..][12..];
      assert |frame| == 22 ==> frame[..12][..4] == old(socket.incoming)[..12][..4];
      if FromLe32(resp[..4]) != 0 {
        socket.Close();
        return Failed, frame;
      }
      AcceptedStart(Ping, resp[..], frame);
      assert frame[..|frame|] == frame;
      if resp[12..] != GREETING { return Failed, frame; }
    }

    /** emmc_read_sector, emmc_read_sector_ms and emmc_read_sector_gc. */
    method EmmcReadSector(dev: Device, sector: int32, result: array<byte>)
      returns (status: Status, ghost frame: seq<byte>)
      requires result.Length == SECTOR
      modifies socket, result
      ensures status == Failed ==> !socket.live
      ensures var r := ReadSector(dev, sector);
              status == Done ==>
                && socket.outgoing == old(socket.outgoing) + Wire.Encode(r)
                && old(socket.incoming) == frame + socket.incoming
                && FrameOk(r, frame) && result[..] == Data(r, frame)
      ensures Due(ReadSector(dev, sector), old(socket.incoming), old(socket.script), old(socket.live)) ==>
                status == Done && socket.live
                && Generous(socket.script, |old(socket.script)| - 1 - FrameLength(ReadSector(dev, sector)))
    {
      hide Wire.Encode, FromLe32, Passes;
      var r := ReadSector(dev, sector);
      EncodeLength(r);
      frame := [];
      status := SendRequest(r);
      if status != Done { return; }
      var resp := new byte[12 + SECTOR];
      status := RecvLoop(resp);
      if status != Done { return; }
      frame := resp[..];
      assert resp[..4] == frame[..12][..4] && resp[8..12] == frame[..12][8..];
      assert frame[..12] == old(socket.incoming)[..12];
      if FromLe32(resp[..4]) != Code(r) || FromLe32(resp[8..12]) != 0 {
        socket.Close();
        return Failed, frame;
      }
      AcceptedStart(r, frame, frame[..12]);
      Store(result, 0, resp[12..]);
    }

    /** emmc_read_cluster, emmc_read_cluster_ms and emmc_read_cluster_gc: the header is whatever one recv brings, the
        data that follows is collected whole. */
    method EmmcReadCluster(dev: Device, cluster: int32, data: array<byte>)
      returns (status: Status, ghost frame: seq<byte>)
      requires data.Length == CLUSTER
      modifies socket, data
      ensures status == Failed ==> !socket.live
      ensures var r := ReadCluster(dev, cluster);
              status == Done ==>
                && socket.outgoing == old(socket.outgoing) + Wire.Encode(r)
                && old(socket.incoming) == frame + socket.incoming
                && FrameOk(r, frame) && data[..] == Data(r, frame)
      ensures Due(ReadCluster(dev, cluster), old(socket.incoming), old(socket.script), old(socket.live)) ==>
                && status == Done && |frame| == FrameLength(ReadCluster(dev, cluster))
                && socket.live
                && Generous(socket.script, |old(socket.script)| - 1 - FrameLength(ReadCluster(dev, cluster)))
    {
      hide Wire.Encode, FromLe32, Passes;
      var r := ReadCluster(dev, cluster);
      EncodeLength(r);
      frame := [];
      status := SendRequest(r);
      if status != Done { return; }
      var resp := new byte[12];
      ghost var header;
      status, header := RecvOnce(resp);
      if status != Done { return; }
      status := RecvLoop(data);
      if status != Done { return; }
      frame := header + data[..];
      assert |header| == 12 ==> resp[..] == header == frame[..12] == old(socket.incoming)[..12];
      if FromLe32(resp[..4]) != Code(r) || FromLe32(resp[8..]) != 0 {
        socket.Close();
        return Failed, frame;
      }
      assert resp[..][..12] == resp[..] && resp[..4] == resp[..][..4] && resp[8..] == resp[..][8..];
      AcceptedStart(r, resp[..], header);
      assert frame[..|frame| - DataLength(r)] == header;
    }

    /** The first loop of dump_partition: whole clusters. */
    method DumpClusters(dev: Device, offset: uint32, nClustersToRead: nat, ghost sent0: seq<byte>, ghost in0: seq<byte>,
                        ghost frame0: seq<byte>, ghost all: seq<Request>)
      returns (status: Status, file: seq<byte>, ghost frames: seq<seq<byte>>)
      requires socket.outgoing == sent0 + EncodeAll([INIT])
      requires Conversation([INIT], [frame0], [], in0, socket.incoming)
      modifies socket
      ensures var rs := [INIT] + ClusterReads(dev, offset, nClustersToRead);
              && (status == Done ==>
                    && socket.outgoing == sent0 + EncodeAll(rs)
                    && Conversation(rs, frames, file, in0, socket.incoming))
              && (|frame0| == 12 && rs <= all
                  && Coming(all, 1, old(socket.incoming), old(socket.script), old(socket.live)) ==>
                    && status == Done && Whole(rs, frames)
                    && Coming(all, |rs|, socket.incoming, socket.script, socket.live))
    {
      hide Conversation, Wire.Encode, EncodeAll, FrameOk, ClusterReads, I32, ClusterOffset, Coming, Due, Whole,
           FrameLength, Data;
      file, frames := [], [frame0];
      var clusterOffset := ClusterOffset(offset);
      var clusterData := new byte[CLUSTER];
      ghost var rs := [INIT];
      ghost var coming := |frame0| == 12 && [INIT] + ClusterReads(dev, offset, nClustersToRead) <= all
                          && Coming(all, 1, socket.incoming, socket.script, socket.live);
      var i := 0;
      ClusterReadsNone(dev, offset);
      WholeInit(frame0);
      while i < nClustersToRead
        invariant i <= nClustersToRead && rs == [INIT] + ClusterReads(dev, offset, i)
        invariant socket.outgoing == sent0 + EncodeAll(rs)
        invariant Conversation(rs, frames, file, in0, socket.incoming)
        invariant coming ==> Whole(rs, frames) && Coming(all, i + 1, socket.incoming, socket.script, socket.live)
      {
        ghost var incoming, script, live := socket.incoming, socket.script, socket.live;
        var cluster := I32(clusterOffset + i);
        ghost var r := ReadCluster(dev, cluster);
        ClusterReadsNext(dev, offset, i);
        if coming {
          ClusterReadsPrefix(dev, offset, i + 1, nClustersToRead);
          assert all[i + 1] == ([INIT] + ClusterReads(dev, offset, i + 1))[i + 1] == (rs + [r])[i + 1] == r;
          ComingDue(all, i + 1, incoming, script, live);
        }
        ghost var frame;
        status, frame := EmmcReadCluster(dev, cluster, clusterData);
        if status != Done { return; }
        ConversationStep(rs, frames, file, in0, incoming, r, frame, socket.incoming);
        if coming {
          ComingNext(all, i + 1, incoming, script, live, frame, socket.incoming, socket.script);
          WholeStep(rs, frames, r, frame);
        }
        EncodeAllSnoc(rs, r);
        rs, frames := rs + [r], frames + [frame];
        file := file + clusterData[..];
        i := i + 1;
      }
      status := Done;
    }

    /** The second loop of dump_partition: the tail, sector by sector. */
    method DumpSectors(dev: Device, offset: uint32, size: uint32, file0: seq<byte>, ghost sent0: seq<byte>,
                       ghost in0: seq<byte>, ghost frames0: seq<seq<byte>>, ghost all: seq<Request>)
      returns (status: Status, file: seq<byte>, ghost frames: seq<seq<byte>>)
      requires socket.outgoing == sent0 + EncodeAll([INIT] + ClusterReads(dev, offset, Clusters(size)))
      requires Conversation([INIT] + ClusterReads(dev, offset, Clusters(size)), frames0, file0, in0, socket.incoming)
      modifies socket
      ensures var rs := [INIT] + ClusterReads(dev, offset, Clusters(size));
              && (status == Done ==>
                    && socket.outgoing == sent0 + EncodeAll(DumpRequests(dev, offset, size))
                    && Conversation(DumpRequests(dev, offset, size), frames, file, in0, socket.incoming))
              && (Whole(rs, frames0) && DumpRequests(dev, offset, size) <= all
                  && Coming(all, |rs|, old(socket.incoming), old(socket.script), old(socket.live)) ==>
                    && status == Done && Whole(DumpRequests(dev, offset, size), frames)
                    && Coming(all, |DumpRequests(dev, offset, size)|, socket.incoming, socket.script, socket.live))
    {
      hide Conversation, Wire.Encode, EncodeAll, FrameOk, TailOffset, Tail, ClusterReads, SectorReads, I32,
           Coming, Due, Whole, FrameLength, Data;
      var nSectorsToRead := Tail(size);
      var tailOffset := TailOffset(offset, size);
      file, frames := file0, frames0;
      ghost var rs0 := [INIT] + ClusterReads(dev, offset, Clusters(size));
      ghost var rs := rs0;
      ghost var coming := Whole(rs0, frames0) && DumpRequests(dev, offset, size) <= all
                          && Coming(all, |rs0|, socket.incoming, socket.script, socket.live);
      var sectorData := new byte[SECTOR];
      var i := 0;
      SectorReadsStep(rs0, dev, offset, size, 0);
      while i < nSectorsToRead
        invariant i <= nSectorsToRead && rs == rs0 + SectorReads(dev, offset, size, i)
        invariant socket.outgoing == sent0 + EncodeAll(rs)
        invariant Conversation(rs, frames, file, in0, socket.incoming)
        invariant coming ==> Whole(rs, frames) && Coming(all, |rs|, socket.incoming, socket.script, socket.live)
      {
        ghost var incoming, script, live := socket.incoming, socket.script, socket.live;
        var sector := I32(tailOffset + i);
        ghost var r := ReadSector(dev, sector);
        SectorReadsStep(rs0, dev, offset, size, i);
        if coming {
          SectorReadsPrefix(dev, offset, size, i + 1, nSectorsToRead);
          assert all[|rs|] == (rs0 + SectorReads(dev, offset, size, i + 1))[|rs|] == (rs + [r])[|rs|] == r;
          ComingDue(all, |rs|, incoming, script, live);
        }
        ghost var frame;
        status, frame := EmmcReadSector(dev, sector, sectorData);
        if status != Done { return; }
        ConversationStep(rs, frames, file, in0, incoming, r, frame, socket.incoming);
        if coming {
          SectorFrame(r, frame);
          ComingNext(all, |rs|, incoming, script, live, frame, socket.incoming, socket.script);
          WholeStep(rs, frames, r, frame);
        }
        EncodeAllSnoc(rs, r);
        rs, frames := rs + [r], frames + [frame];
        file := file + sectorData[..];
        i := i + 1;
      }
      status := Done;
    }

    /** dump_partition: when it finishes it has sent the requests of the plan, and the file is what the frames it took
        for their responses carried; if acceptable responses come, it finishes, and has taken exactly those. */
    method DumpPartition(dev: Device, offset: uint32, size: uint32)
      returns (status: Status, file: seq<byte>, ghost frames: seq<seq<byte>>)
      modifies socket
      ensures var rs := DumpRequests(dev, offset, size);
              && (status == Done ==>
                    && old(socket.live)
                    && socket.outgoing == old(socket.outgoing) + EncodeAll(rs + [Deinit])
                    && Received(rs, frames)
                    && Flatten(frames) <= old(socket.incoming)
                    && file == Delivered(rs, frames))
              && (Coming(rs + [Deinit], 0, old(socket.incoming), old(socket.script), old(socket.live)) ==>
                    status == Done && Whole(rs, frames))
    {
      hide *;
      ghost var sent0, in0, script, live := socket.outgoing, socket.incoming, socket.script, socket.live;
      ghost var frame, frame0;
      ghost var rs := DumpRequests(dev, offset, size);
      ghost var all := rs + [Deinit];
      ghost var coming := Coming(all, 0, in0, script, live);
      file, frames := [], [];
      DumpStarts(dev, offset, size);
      InitFrame();
      if coming { ComingDue(all, 0, in0, script, live); }
      status, frame0 := Exchange(INIT);
      if status != Done { return; }
      if coming { ComingNext(all, 0, in0, script, live, frame0, socket.incoming, socket.script); }
      ConversationStart(INIT, frame0, in0, socket.incoming);
      EncodeOne(INIT);
      status, file, frames := DumpClusters(dev, offset, Clusters(size), sent0, in0, frame0, all);
      if status != Done { return; }
      status, file, frames := DumpSectors(dev, offset, size, file, sent0, in0, frames, all);
      if status != Done { return; }
      EncodeAllSnoc(rs, Deinit);
      ConversationEnd(rs, frames, file, in0, socket.incoming);
      if coming { ComingDue(all, |rs|, socket.incoming, socket.script, socket.live); }
      status, frame := Exchange(Deinit);
    }

    /** parse_sce_mbr: read the first sector over the record. The record is filled whether or not it validates. */
    method ParseSceMbr(dev: Device, mbr: array<byte>) returns (status: Status, valid: bool, ghost frame: seq<byte>)
      requires mbr.Length == SECTOR
      modifies socket, mbr
      ensures status == Failed ==> !socket.live
      ensures var r := ReadSector(dev, 0);
              status == Done ==>
                && socket.outgoing == old(socket.outgoing) + Wire.Encode(r)
                && old(socket.incoming) == frame + socket.incoming
                && FrameOk(r, frame) && mbr[..] == Data(r, frame) && valid == Validated(Parse(mbr[..]))
      ensures Due(ReadSector(dev, 0), old(socket.incoming), old(socket.script), old(socket.live)) ==>
                status == Done && socket.live
                && Generous(socket.script, |old(socket.script)| - 1 - FrameLength(ReadSector(dev, 0)))
    {
      hide Wire.Encode, FrameOk, Data, Parse, Due;
      valid := false;
      var mbrSector := new byte[SECTOR];
      status, frame := EmmcReadSector(dev, 0, mbrSector);
      if status != Done { return; }
      Store(mbr, 0, mbrSector[..]);
      valid := Validated(Parse(mbr[..]));
    }

    /** dump_device. It ignores what parse_sce_mbr returns, so a record that does not validate is used all the same;
        after a failed read the record is whatever the stack held, but the connection is closed. "status" is what
        dump_partition reports, which dump_device ignores, too. */
    method DumpDevice(dev: Device, pick: Pick)
      returns (rc: int, status: Status, file: seq<byte>, ghost frames: seq<seq<byte>>)
      requires pick.index < PARTITIONS
      modifies socket
      ensures status == Done ==>
                && 2 <= |frames| && |frames[1]| == 12 + SECTOR
                && var e := Entry(Parse(frames[1][12..]), pick);
                   var reqs := DeviceRequests(dev, e.partitionOffset, e.partitionSize);
                   && e.partitionType != 0
                   && socket.outgoing == old(socket.outgoing) + EncodeAll(reqs + [Deinit])
                   && Received(reqs, frames)
                   && Flatten(frames) <= old(socket.incoming)
                   && file == Delivered(DumpRequests(dev, e.partitionOffset, e.partitionSize), frames[2..])
      ensures rc in {0, -1} && (status == Done ==> rc == 0)
      ensures rc == 0 ==> |frames| >= 2 && FrameOk(Ping, frames[0])
      ensures EmptyComing(dev, pick, old(socket.incoming), old(socket.script), old(socket.live)) ==>
                && rc == -1 && file == []
                && socket.outgoing == old(socket.outgoing) + Wire.Encode(Ping) + Wire.Encode(ReadSector(dev, 0))
      ensures DeviceComing(dev, pick, old(socket.incoming), old(socket.script), old(socket.live)) ==>
                var e := NamedEntry(pick, old(socket.incoming));
                && status == Done && Entry(Parse(frames[1][12..]), pick) == e
                && Whole(DeviceRequests(dev, e.partitionOffset, e.partitionSize), frames)
    {
      hide Wire.Encode, EncodeAll, Accepts, Parse, Received, Flatten, Delivered, DumpRequests,
           Whole, Coming, Due, FrameOk, DeviceComing, EmptyComing, NamedEntry;
      ghost var sent0, in0, script, live := socket.outgoing, socket.incoming, socket.script, socket.live;
      ghost var greeting, sector0;
      ghost var coming := DeviceComing(dev, pick, in0, script, live);
      ghost var empty := EmptyComing(dev, pick, in0, script, live);
      rc, file, frames := -1, [], [];
      if coming { PingDue(dev, pick, in0, script, live); }
      if empty { EmptyPingDue(dev, pick, in0, script, live); }
      status, greeting := EmmcPing();
      if status != Done { return; }
      if coming {
        SectorDue(dev, pick, in0, script, live, greeting, socket.incoming, socket.script);
      }
      if empty { EmptySectorDue(dev, pick, in0, script, live, greeting, socket.incoming, socket.script); }
      var mbr := new byte[SECTOR];
      var read, valid;
      read, valid, sector0 := ParseSceMbr(dev, mbr);
      if read == Pending { return -1, Pending, [], []; }
      if coming {
        DumpComing(dev, pick, in0, script, live, greeting, sector0, socket.incoming, socket.script);
      }
      if empty { EmptyEntry(dev, pick, in0, script, live, greeting, sector0, socket.incoming); }
      var e := Entry(Parse(mbr[..]), pick);
      if e.partitionType == 0 { return -1, Failed, [], []; }
      ghost var sent1, in1 := socket.outgoing, socket.incoming;
      status, file, frames := DumpPartition(dev, e.partitionOffset, e.partitionSize);
      rc := 0;
      if status == Done {
        DeviceConversation(dev, e.partitionOffset, e.partitionSize, greeting, sector0, frames, sent0, sent1, in0, in1);
        SectorFrame(ReadSector(dev, 0), sector0);
      }
      if coming { DeviceWhole(dev, e.partitionOffset, e.partitionSize, greeting, sector0, frames); }
      frames := [greeting, sector0] + frames;
    }
  }
}
