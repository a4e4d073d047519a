/** End to end: a dump that finishes has written the partition. The client's side of a run is what
    Client.DumpPartition ensures, the server's side what Server.ReceiveCommands ensures; between them is a stream in
    each direction, of which the receiver may have taken only a part. */
module Dump {
  import opened Words
  import opened Wire
  import opened Pools
  import opened Protocol
  import opened Sessions
  import opened PoolInvariant
  import opened DumpPlan
  import opened ClientModule
  import opened Mbr

  // ---------- runs of reads ----------

  predicate IsRead(r: Request) { r.ReadSector? || r.ReadCluster? }

  /** The requests a dump is made of. */
  predicate OfDump(r: Request) { r.Ping? || r == INIT || IsRead(r) }

  predicate HasInit(reqs: seq<Request>, k: nat)
    requires k <= |reqs|
  {
    exists j :: 0 <= j < k && reqs[j] == INIT
  }

  /** Only requests of a dump, and every cluster read comes after an INIT. */
  ghost predicate ReadingSession(reqs: seq<Request>) {
    && (forall k :: 0 <= k < |reqs| ==> OfDump(reqs[k]))
    && (forall k :: 0 <= k < |reqs| && reqs[k].ReadCluster? ==> HasInit(reqs, k))
  }

  predicate DumpGeometry(p: Pool) {
    p.bytesPerSector == SECTOR && p.sectorsPerCluster == SECTORS_PER_CLUSTER
  }

  lemma GeometryStep(pf: Platform, st: State, r: Request, env: Env)
    requires OfDump(r) && !Serve(pf, st, r, env).closes
    ensures r == INIT ==> DumpGeometry(Serve(pf, st, r, env).st.server)
    ensures DumpGeometry(st.server) ==> DumpGeometry(Serve(pf, st, r, env).st.server)
  {
  }

  /** As long as the connection stays open, an INIT leaves the server with the client's geometry, allocated or not. */
  lemma {:induction false} GeometryAfterInit(pf: Platform, st: State, reqs: seq<Request>, envs: seq<Env>, k: nat)
    requires k <= |reqs| && k <= |envs| && StaysOpen(pf, st, reqs, envs, k) && HasInit(reqs, k)
    requires forall j :: 0 <= j < k ==> OfDump(reqs[j])
    ensures DumpGeometry(After(pf, st, reqs[..k], envs).server)
  {
    hide Serve, After, DumpGeometry, OfDump;
    RunSnoc(pf, st, reqs, envs, k - 1);
    GeometryStep(pf, After(pf, st, reqs[..k - 1], envs), reqs[k - 1], envs[k - 1]);
    if reqs[k - 1] != INIT { GeometryAfterInit(pf, st, reqs, envs, k - 1); }
  }

  lemma {:induction false} InvAlong(pf: Platform, st: State, reqs: seq<Request>, envs: seq<Env>, k: nat)
    requires k <= |reqs| && k <= |envs| && PoolInv(st)
    requires forall j :: 0 <= j < k ==> OfDump(reqs[j])
    ensures PoolInv(After(pf, st, reqs[..k], envs))
  {
    if k > 0 {
      InvAlong(pf, st, reqs, envs, k - 1);
      RunSnoc(pf, st, reqs, envs, k - 1);
      InvBreaksExactly(pf, After(pf, st, reqs[..k - 1], envs), reqs[k - 1], envs[k - 1]);
    }
  }

  /** Lockstep: what the server sends for a request of a dump is as long as what the client waits for, when the read
      fails, too. */
  lemma ReplyLength(pf: Platform, st: State, r: Request, env: Env)
    requires StateOk(st) && OfDump(r) && (r.ReadCluster? ==> DumpGeometry(st.server))
    ensures |Serve(pf, st, r, env).reply| == FrameLength(r)
  {
    ServeKeepsStateOk(pf, st, r, env);
    if r.ReadCluster? {
      var c := ReadClusterStep(pf, st, r.dev, r.cluster, env);
      assert DumpGeometry(c.st.server) && PoolOk(c.st.server);
      assert ClusterBytes(c.st.server) == CLUSTER;
    }
  }

  /** What a read is to bring. */
  function Brought(pf: Platform, r: Request): seq<byte>
    requires IsRead(r)
  {
    if r.ReadSector? then pf.disk(r.dev, r.sector)
    else Sectors(pf, r.dev, FirstSector(r.cluster), SECTORS_PER_CLUSTER)
  }

  lemma HeaderWords(command: int, vitaErr: int32, proxyErr: int32)
    ensures Header(command, vitaErr, proxyErr)[..4] == Le32(command)
    ensures Header(command, vitaErr, proxyErr)[8..] == Le32(proxyErr)
  {
    hide Le32;
  }

  /** Of the two error words the client goes by the driver's alone, and by that one only for a read. */
  lemma AcceptedExactly(r: Request, vitaErr: int32, proxyErr: int32)
    ensures Accepts(r, Header(Code(r), vitaErr, proxyErr)) <==> (IsRead(r) ==> proxyErr == 0)
  {
    hide Header, Le32, FromLe32;
    HeaderWords(Code(r), vitaErr, proxyErr);
    Le32RoundTrip(Code(r));
    Le32RoundTrip(proxyErr);
  }

  /** A response the client accepts carries what is on the device. */
  lemma AcceptedIsDisk(pf: Platform, st: State, r: Request, env: Env)
    requires PoolInv(st) && IsRead(r) && (r.ReadCluster? ==> DumpGeometry(st.server))
    requires |Serve(pf, st, r, env).reply| >= 12 && Accepts(r, Serve(pf, st, r, env).reply[..12])
    ensures Serve(pf, st, r, env).reply[12..] == Brought(pf, r)
  {
    var code := if r.ReadSector? then ReadSectorCode(pf, r.dev, env)
                else ReadClusterStep(pf, st, r.dev, r.cluster, env).code;
    var reply := Serve(pf, st, r, env).reply;
    assert reply[..12] == Header(Code(r), 0, code);
    AcceptedExactly(r, 0, code);
    assert code == 0;
    if r.ReadCluster? {
      ClusterFillsPool(pf, st, r.dev, r.cluster, env);
      ServeKeepsStateOk(pf, st, r, env);
    }
  }

  // ---------- the two streams ----------

  lemma SameLengthPrefix(x: seq<byte>, a: seq<byte>, b: seq<byte>)
    requires a <= x && b <= x && |a| == |b|
    ensures a == b
  {
    assert a == x[..|a|] && b == x[..|b|];
  }

  lemma FlattenNext(frames: seq<seq<byte>>, k: nat)
    requires k < |frames|
    ensures Flatten(frames[..k + 1]) == Flatten(frames[..k]) + frames[k]
  {
    assert frames[..k + 1][..k] == frames[..k];
  }

  lemma {:induction false} FlattenPrefix(frames: seq<seq<byte>>, k: nat)
    requires k <= |frames|
    ensures Flatten(frames[..k]) <= Flatten(frames)
    decreases |frames| - k
  {
    if k < |frames| {
      FlattenNext(frames, k);
      FlattenPrefix(frames, k + 1);
    } else {
      assert frames[..k] == frames;
    }
  }

  /** The client took these frames as the responses to reqs, and their headers came in one piece. */
  ghost predicate Talked(reqs: seq<Request>, frames: seq<seq<byte>>) { Received(reqs, frames) && Whole(reqs, frames) }

  /** One run seen from both ends: the server served "all" up to some point, the client took the frames of its first
      requests "reqs" off what was emitted. */
  ghost predicate BothEnds(pf: Platform, st0: State, reqs: seq<Request>, all: seq<Request>, envs: seq<Env>,
                           session: Session, st: State, emitted: seq<byte>, frames: seq<seq<byte>>)
  {
    && PoolInv(st0)
    && reqs <= all && ReadingSession(reqs)
    && Serves(pf, st0, all, envs, session, st, emitted)
    && Talked(reqs, frames) && Flatten(frames) <= emitted
  }

  lemma EndsAt(pf: Platform, st0: State, reqs: seq<Request>, all: seq<Request>, envs: seq<Env>,
               session: Session, st: State, emitted: seq<byte>, frames: seq<seq<byte>>, k: nat)
    requires BothEnds(pf, st0, reqs, all, envs, session, st, emitted, frames) && k < |reqs|
    ensures k < |all| && |frames| == |reqs|
    ensures reqs[k] == all[k] && OfDump(reqs[k])
    ensures |frames[k]| == FrameLength(reqs[k]) && |frames[k]| >= 12 && Accepts(reqs[k], frames[k][..12])
  {
    hide Serves, PoolInv, Accepts, Flatten;
  }

  /** The facts about request k of such a run that its response depends on. */
  lemma AtRequest(pf: Platform, st0: State, reqs: seq<Request>, all: seq<Request>, envs: seq<Env>,
                  session: Session, st: State, emitted: seq<byte>, frames: seq<seq<byte>>, k: nat)
    requires BothEnds(pf, st0, reqs, all, envs, session, st, emitted, frames) && k < |reqs| && k < |session.log|
    ensures k < |all| && k < |envs| && reqs[k] == all[k] && OfDump(reqs[k])
    ensures var stk := After(pf, st0, all[..k], envs);
            PoolInv(stk) && (reqs[k].ReadCluster? ==> DumpGeometry(stk.server))
  {
    hide Serve, After, Replies, OfDump, PoolInv, DumpGeometry;
    assert forall j :: 0 <= j < |reqs| ==> reqs[j] == all[j];
    InvAlong(pf, st0, all, envs, k);
    if reqs[k].ReadCluster? {
      assert HasInit(all, k);
      GeometryAfterInit(pf, st0, all, envs, k);
    }
  }

  lemma InvIsOk(st: State)
    requires PoolInv(st)
    ensures StateOk(st)
  {
  }

  lemma {:induction false} LockstepLengths(pf: Platform, st0: State, reqs: seq<Request>, all: seq<Request>,
                                           envs: seq<Env>, session: Session, st: State, emitted: seq<byte>,
                                           frames: seq<seq<byte>>, k: nat)
    requires BothEnds(pf, st0, reqs, all, envs, session, st, emitted, frames) && k <= |reqs| && k <= |session.log|
    ensures k <= |all| && k <= |envs| && k <= |frames|
    ensures |Flatten(frames[..k])| == |Replies(pf, st0, all[..k], envs)|
  {
    hide *;
    if k == 0 {
      NothingYet(pf, st0, reqs, all, envs, session, st, emitted, frames);
    } else {
      LockstepLengths(pf, st0, reqs, all, envs, session, st, emitted, frames, k - 1);
      EndsAt(pf, st0, reqs, all, envs, session, st, emitted, frames, k - 1);
      AtRequest(pf, st0, reqs, all, envs, session, st, emitted, frames, k - 1);
      InvIsOk(After(pf, st0, all[..k - 1], envs));
      ReplyLength(pf, After(pf, st0, all[..k - 1], envs), all[k - 1], envs[k - 1]);
      FlattenNext(frames, k - 1);
      RunSnoc(pf, st0, all, envs, k - 1);
    }
  }

  lemma NothingYet(pf: Platform, st0: State, reqs: seq<Request>, all: seq<Request>, envs: seq<Env>,
                   session: Session, st: State, emitted: seq<byte>, frames: seq<seq<byte>>)
    requires BothEnds(pf, st0, reqs, all, envs, session, st, emitted, frames)
    ensures Flatten(frames[..0]) == [] == Replies(pf, st0, all[..0], envs)
  {
  }

  /** The streams run in lockstep: after k responses the client has taken exactly the k responses the server
      emitted, so that nothing is left over between two commands. */
  lemma Lockstep(pf: Platform, st0: State, reqs: seq<Request>, all: seq<Request>, envs: seq<Env>,
                 session: Session, st: State, emitted: seq<byte>, frames: seq<seq<byte>>, k: nat)
    requires BothEnds(pf, st0, reqs, all, envs, session, st, emitted, frames) && k <= |reqs| && k <= |session.log|
    ensures k <= |all| && k <= |envs| && k <= |frames|
    ensures Flatten(frames[..k]) == Replies(pf, st0, all[..k], envs)
  {
    hide Flatten, Replies, Serves, ReadingSession;
    var log := session.log;
    LockstepLengths(pf, st0, reqs, all, envs, session, st, emitted, frames, k);
    FlattenPrefix(frames, k);
    Upper(pf, st0, all, envs, session, st, emitted);
    RepliesPrefix(pf, st0, all, envs, k, |log|);
    assert all[..|log|] == log;
    SameLengthPrefix(Limit(pf, st0, all, envs, session), Flatten(frames[..k]), Replies(pf, st0, all[..k], envs));
  }

  /** The most a session can emit. */
  function Limit(pf: Platform, st0: State, all: seq<Request>, envs: seq<Env>, session: Session): seq<byte>
    requires session.log <= all && |session.log| <= |envs| && (session.aborted ==> |session.log| < |all|)
  {
    Replies(pf, st0, session.log, envs) + (if session.aborted then AbortReply(all[|session.log|]) else [])
  }

  lemma Upper(pf: Platform, st0: State, all: seq<Request>, envs: seq<Env>, session: Session, st: State,
              emitted: seq<byte>)
    requires Serves(pf, st0, all, envs, session, st, emitted)
    ensures session.log <= all && |session.log| <= |envs| && (session.aborted ==> |session.log| < |all|)
    ensures Replies(pf, st0, session.log, envs) <= Limit(pf, st0, all, envs, session)
    ensures emitted <= Limit(pf, st0, all, envs, session)
  {
  }

  /** The k-th frame is the k-th response. */
  lemma FrameIsReply(pf: Platform, st0: State, reqs: seq<Request>, all: seq<Request>, envs: seq<Env>,
                     session: Session, st: State, emitted: seq<byte>, frames: seq<seq<byte>>, k: nat)
    requires BothEnds(pf, st0, reqs, all, envs, session, st, emitted, frames) && k < |reqs| && k < |session.log|
    ensures k < |all| && k < |envs| && k < |frames|
    ensures frames[k] == Serve(pf, After(pf, st0, all[..k], envs), all[k], envs[k]).reply
  {
    Lockstep(pf, st0, reqs, all, envs, session, st, emitted, frames, k);
    Lockstep(pf, st0, reqs, all, envs, session, st, emitted, frames, k + 1);
    hide *;
    FlattenNext(frames, k);
    RunSnoc(pf, st0, all, envs, k);
    Tails(Flatten(frames[..k]), frames[k], Serve(pf, After(pf, st0, all[..k], envs), all[k], envs[k]).reply);
  }

  lemma Tails(a: seq<byte>, b: seq<byte>, c: seq<byte>)
    requires a + b == a + c
    ensures b == c
  {
    assert b == (a + b)[|a|..] && c == (a + c)[|a|..];
  }

  /** So every read the server got to brought what is on the device. */
  lemma ReadBrings(pf: Platform, st0: State, reqs: seq<Request>, all: seq<Request>, envs: seq<Env>,
                   session: Session, st: State, emitted: seq<byte>, frames: seq<seq<byte>>, k: nat)
    requires BothEnds(pf, st0, reqs, all, envs, session, st, emitted, frames) && k < |reqs| && k < |session.log|
    requires IsRead(reqs[k])
    ensures |frames| == |reqs| && |frames[k]| >= 12 && frames[k][12..] == Brought(pf, reqs[k])
  {
    hide *;
    EndsAt(pf, st0, reqs, all, envs, session, st, emitted, frames, k);
    AtRequest(pf, st0, reqs, all, envs, session, st, emitted, frames, k);
    FrameIsReply(pf, st0, reqs, all, envs, session, st, emitted, frames, k);
    AcceptedIsDisk(pf, After(pf, st0, all[..k], envs), reqs[k], envs[k]);
  }

  /** Frames beyond the requests served lie within what an aborted request emitted. */
  lemma FramesBeyond(pf: Platform, st0: State, reqs: seq<Request>, all: seq<Request>, envs: seq<Env>,
                     session: Session, st: State, emitted: seq<byte>, frames: seq<seq<byte>>, k: nat)
    requires BothEnds(pf, st0, reqs, all, envs, session, st, emitted, frames) && |session.log| < k <= |reqs|
    ensures k <= |frames| && |session.log| <= |envs| && session.log <= all && |session.log| < |all|
    ensures Flatten(frames[..k]) <= Replies(pf, st0, session.log, envs)
                                    + (if session.aborted then AbortReply(all[|session.log|]) else [])
    ensures Flatten(frames[..|session.log|]) == Replies(pf, st0, session.log, envs)
  {
    Lockstep(pf, st0, reqs, all, envs, session, st, emitted, frames, |session.log|);
    Upper(pf, st0, all, envs, session, st, emitted);
    FlattenPrefix(frames, k);
    assert all[..|session.log|] == session.log;
  }

  /** A request the server did not get to can only be the last one, its body came up short, and it is no cluster
      read; if it is a sector read, the client has taken a sector of zeros for it. */
  lemma BeyondLog(pf: Platform, st0: State, reqs: seq<Request>, all: seq<Request>, envs: seq<Env>,
                  session: Session, st: State, emitted: seq<byte>, frames: seq<seq<byte>>)
    requires BothEnds(pf, st0, reqs, all, envs, session, st, emitted, frames) && |session.log| < |reqs|
    ensures session.aborted && |session.log| == |reqs| - 1 == |frames| - 1 && !reqs[|reqs| - 1].ReadCluster?
    ensures reqs[|reqs| - 1].ReadSector? ==> |frames[|reqs| - 1]| >= 12 && frames[|reqs| - 1][12..] == Zeros()
  {
    hide *;
    var n := |session.log|;
    FramesBeyond(pf, st0, reqs, all, envs, session, st, emitted, frames, n + 1);
    EndsAt(pf, st0, reqs, all, envs, session, st, emitted, frames, n);
    FlattenNext(frames, n);
    if n + 1 < |reqs| {
      FramesBeyond(pf, st0, reqs, all, envs, session, st, emitted, frames, n + 2);
      EndsAt(pf, st0, reqs, all, envs, session, st, emitted, frames, n + 1);
      FlattenNext(frames, n + 1);
    }
    var abort := if session.aborted then AbortReply(all[n]) else [];
    PrefixTail(Flatten(frames[..n]), frames[n], Flatten(frames[..n]) + abort);
    assert (Flatten(frames[..n]) + abort)[|Flatten(frames[..n])|..] == abort;
    AbortFits(reqs[n], frames[n]);
  }

  /** Of the responses to a body that came up short, the client takes at most that to a sector read for a frame. */
  lemma AbortFits(r: Request, frame: seq<byte>)
    requires OfDump(r) && |frame| == FrameLength(r)
    ensures frame <= AbortReply(r) ==> !r.ReadCluster? && |AbortReply(r)| < |frame| + 12
    ensures frame <= AbortReply(r) && r.ReadSector? ==> frame[12..] == Zeros()
  {
    if frame <= AbortReply(r) && r.ReadSector? {
      assert frame == AbortReply(r);
    }
  }

  lemma PrefixTail(a: seq<byte>, b: seq<byte>, x: seq<byte>)
    requires a + b <= x
    ensures b <= x[|a|..]
  {
    assert b == (a + b)[|a|..] && (a + b) == x[..|a| + |b|];
  }

  // ---------- the file ----------

  /** The contents of the sectors of a list, in its order. */
  function Gather(pf: Platform, dev: Device, sectors: seq<int>): seq<byte> {
    if sectors == [] then []
    else Gather(pf, dev, sectors[..|sectors| - 1]) + pf.disk(dev, sectors[|sectors| - 1])
  }

  lemma {:induction false} GatherAppend(pf: Platform, dev: Device, a: seq<int>, b: seq<int>)
    ensures Gather(pf, dev, a + b) == Gather(pf, dev, a) + Gather(pf, dev, b)
  {
    if b == [] {
      assert a + b == a;
    } else {
      var n := |b| - 1;
      GatherAppend(pf, dev, a, b[..n]);
      assert (a + b)[..|a + b| - 1] == a + b[..n];
    }
  }

  function Consecutive(first: int, n: nat): (s: seq<int>)
    ensures |s| == n
  {
    seq(n, k requires 0 <= k => first + k)
  }

  lemma {:induction false} GatherConsecutive(pf: Platform, dev: Device, first: int, n: nat)
    ensures Gather(pf, dev, Consecutive(first, n)) == Sectors(pf, dev, first, n)
  {
    if n > 0 {
      GatherConsecutive(pf, dev, first, n - 1);
      assert Consecutive(first, n)[..n - 1] == Consecutive(first, n - 1);
    }
  }

  /** What the reads among the requests are to bring. */
  function ExpectedFile(pf: Platform, reqs: seq<Request>): seq<byte> {
    if reqs == [] then []
    else
      var n := |reqs| - 1;
      ExpectedFile(pf, reqs[..n]) + (if IsRead(reqs[n]) then Brought(pf, reqs[n]) else [])
  }

  lemma ExpectedSnoc(pf: Platform, reqs: seq<Request>, r: Request)
    requires IsRead(r)
    ensures ExpectedFile(pf, reqs + [r]) == ExpectedFile(pf, reqs) + Brought(pf, r)
  {
    assert (reqs + [r])[..|reqs|] == reqs;
  }

  lemma {:induction false} ClustersExpected(pf: Platform, dev: Device, offset: uint32, size: uint32, n: nat)
    requires n <= Clusters(size)
    ensures 8 * n <= |SectorsRead(offset, size)|
    ensures ExpectedFile(pf, [INIT] + ClusterReads(dev, offset, n))
             == Gather(pf, dev, SectorsRead(offset, size)[..8 * n])
  {
    hide SectorsRead, ClusterArg, FirstSector, Sectors, Consecutive, Clusters;
    var s := SectorsRead(offset, size);
    if n == 0 {
      assert [INIT] + ClusterReads(dev, offset, 0) == [INIT] && [INIT][..0] == [] && s[..0] == [];
    } else {
      ClustersExpected(pf, dev, offset, size, n - 1);
      var r := ReadCluster(dev, ClusterArg(offset, n - 1));
      var first := FirstSector(r.cluster);
      ClusterSlice(offset, size, n - 1);
      assert [INIT] + ClusterReads(dev, offset, n) == ([INIT] + ClusterReads(dev, offset, n - 1)) + [r];
      ExpectedSnoc(pf, [INIT] + ClusterReads(dev, offset, n - 1), r);
      GatherAppend(pf, dev, s[..8 * (n - 1)], Consecutive(first, 8));
      GatherConsecutive(pf, dev, first, 8);
    }
  }

  /** The sectors of cluster i within the list of sectors read. */
  lemma ClusterSlice(offset: uint32, size: uint32, i: nat)
    requires i < Clusters(size)
    ensures 8 * i + 8 <= |SectorsRead(offset, size)|
    ensures SectorsRead(offset, size)[..8 * (i + 1)]
         == SectorsRead(offset, size)[..8 * i] + Consecutive(FirstSector(ClusterArg(offset, i)), 8)
  {
    hide ClusterArg, FirstSector, SectorArg;
    var s := SectorsRead(offset, size);
    forall k | 8 * i <= k < 8 * i + 8
      ensures s[k] == FirstSector(ClusterArg(offset, i)) + (k - 8 * i)
    {
      assert k / 8 == i && k % 8 == k - 8 * i;
    }
  }

  lemma TailAt(offset: uint32, size: uint32, i: nat)
    requires i < Tail(size)
    ensures var k := 8 * Clusters(size) + i;
            k < |SectorsRead(offset, size)| && SectorsRead(offset, size)[k] == SectorArg(offset, size, i)
  {
  }

  lemma TailNext(rs: seq<Request>, dev: Device, offset: uint32, size: uint32, n: nat)
    ensures rs + SectorReads(dev, offset, size, 0) == rs
    ensures rs + SectorReads(dev, offset, size, n + 1)
         == (rs + SectorReads(dev, offset, size, n)) + [ReadSector(dev, SectorArg(offset, size, n))]
  {
  }

  lemma GatherNext(pf: Platform, dev: Device, s: seq<int>, k: nat)
    requires k < |s|
    ensures Gather(pf, dev, s[..k + 1]) == Gather(pf, dev, s[..k]) + pf.disk(dev, s[k])
  {
    assert s[..k + 1][..k] == s[..k];
  }

  lemma {:induction false} TailExpected(pf: Platform, dev: Device, offset: uint32, size: uint32, n: nat)
    requires n <= Tail(size)
    ensures 8 * Clusters(size) + n <= |SectorsRead(offset, size)|
    ensures ExpectedFile(pf, [INIT] + ClusterReads(dev, offset, Clusters(size)) + SectorReads(dev, offset, size, n))
         == Gather(pf, dev, SectorsRead(offset, size)[..8 * Clusters(size) + n])
  {
    hide SectorsRead, SectorArg, ClusterReads, SectorReads, Clusters, Tail, Gather, ExpectedFile;
    var s, rs := SectorsRead(offset, size), [INIT] + ClusterReads(dev, offset, Clusters(size));
    if n == 0 {
      ClustersExpected(pf, dev, offset, size, Clusters(size));
      TailNext(rs, dev, offset, size, 0);
    } else {
      TailExpected(pf, dev, offset, size, n - 1);
      TailAt(offset, size, n - 1);
      TailNext(rs, dev, offset, size, n - 1);
      ExpectedSnoc(pf, rs + SectorReads(dev, offset, size, n - 1), ReadSector(dev, SectorArg(offset, size, n - 1)));
      GatherNext(pf, dev, s, 8 * Clusters(size) + (n - 1));
    }
  }

  /** The requests of a dump, answered from the device, bring the sectors of the plan. */
  lemma DumpExpected(pf: Platform, dev: Device, offset: uint32, size: uint32)
    ensures ExpectedFile(pf, DumpRequests(dev, offset, size)) == Gather(pf, dev, SectorsRead(offset, size))
  {
    TailExpected(pf, dev, offset, size, Tail(size));
    assert SectorsRead(offset, size)[..8 * Clusters(size) + Tail(size)] == SectorsRead(offset, size);
  }

  lemma {:induction false} ContentsBrought(pf: Platform, reqs: seq<Request>, frames: seq<seq<byte>>)
    requires Talked(reqs, frames)
    requires forall k :: 0 <= k < |reqs| && IsRead(reqs[k]) ==> frames[k][12..] == Brought(pf, reqs[k])
    ensures Delivered(reqs, frames) == ExpectedFile(pf, reqs)
  {
    if reqs != [] {
      var n := |reqs| - 1;
      ContentsBrought(pf, reqs[..n], frames[..n]);
    }
  }

  lemma TalkedLengths(reqs: seq<Request>, frames: seq<seq<byte>>)
    requires Talked(reqs, frames)
    ensures |frames| == |reqs| && forall k :: 0 <= k < |frames| ==> |frames[k]| >= 12
  {
  }

  /** When every read but the last request is known to have brought what is on the device. */
  lemma DeliveredLast(pf: Platform, reqs: seq<Request>, frames: seq<seq<byte>>)
    requires Talked(reqs, frames) && reqs != [] && !reqs[|reqs| - 1].ReadCluster?
    requires forall k :: 0 <= k < |reqs| - 1 && IsRead(reqs[k]) ==> frames[k][12..] == Brought(pf, reqs[k])
    ensures |frames| == |reqs| && |frames[|reqs| - 1]| >= 12
    ensures Delivered(reqs, frames)
         == ExpectedFile(pf, reqs[..|reqs| - 1])
         + (if reqs[|reqs| - 1].ReadSector? then frames[|reqs| - 1][12..] else [])
    ensures !reqs[|reqs| - 1].ReadSector? ==> ExpectedFile(pf, reqs) == ExpectedFile(pf, reqs[..|reqs| - 1])
  {
    var n := |reqs| - 1;
    ContentsBrought(pf, reqs[..n], frames[..n]);
  }

  lemma {:induction false} ClusterReadsAt(dev: Device, offset: uint32, n: nat)
    ensures forall k :: 0 <= k < n ==> ClusterReads(dev, offset, n)[k].ReadCluster?
  {
    if n > 0 { ClusterReadsAt(dev, offset, n - 1); }
  }

  lemma {:induction false} SectorReadsAt(dev: Device, offset: uint32, size: uint32, n: nat)
    ensures forall k :: 0 <= k < n ==> SectorReads(dev, offset, size, n)[k].ReadSector?
  {
    if n > 0 { SectorReadsAt(dev, offset, size, n - 1); }
  }

  /** A dump, preceded by greetings and sector reads only. */
  predicate Preliminary(pre: seq<Request>) {
    forall k :: 0 <= k < |pre| ==> pre[k].Ping? || pre[k].ReadSector?
  }

  lemma DumpIsReading(pre: seq<Request>, dev: Device, offset: uint32, size: uint32)
    requires Preliminary(pre)
    ensures ReadingSession(pre + DumpRequests(dev, offset, size))
  {
    ClusterReadsAt(dev, offset, Clusters(size));
    SectorReadsAt(dev, offset, size, Tail(size));
    var reqs := pre + DumpRequests(dev, offset, size);
    assert reqs[|pre|] == INIT;
    hide SectorReads, ClusterReads;
    forall k | 0 <= k < |reqs|
      ensures OfDump(reqs[k]) && (reqs[k].ReadCluster? ==> HasInit(reqs, k))
    {
    }
  }

  lemma TalkedFrom(reqs: seq<Request>, frames: seq<seq<byte>>, j: nat)
    requires Talked(reqs, frames) && j <= |reqs|
    ensures |frames| == |reqs| && Talked(reqs[j..], frames[j..])
  {
  }

  /** Without its last request, when that is a sector read, a dump brings all sectors but the last. */
  lemma DumpButLast(pf: Platform, dev: Device, offset: uint32, size: uint32)
    requires DumpRequests(dev, offset, size)[|DumpRequests(dev, offset, size)| - 1].ReadSector?
    ensures size > 0
    ensures ExpectedFile(pf, DumpRequests(dev, offset, size)[..|DumpRequests(dev, offset, size)| - 1])
         == Gather(pf, dev, SectorsRead(offset, size)[..size - 1])
  {
    var reqs := DumpRequests(dev, offset, size);
    ClusterReadsAt(dev, offset, Clusters(size));
    assert Tail(size) > 0;
    assert reqs[..|reqs| - 1]
            == [INIT] + ClusterReads(dev, offset, Clusters(size)) + SectorReads(dev, offset, size, Tail(size) - 1);
    TailExpected(pf, dev, offset, size, Tail(size) - 1);
  }

  // ---------- the theorem ----------

  /** The last request of the dump is a sector read and its body reached the server in part only. */
  predicate LastSectorTorn(reqs: seq<Request>, session: Session) {
    session.aborted && |session.log| + 1 == |reqs| && reqs[|reqs| - 1].ReadSector?
  }

  /** Whatever requests of a dump a client has made, from the j-th on: if their responses were accepted, they brought
      what is on the device, except that a last sector read whose body was torn brought zeros. */
  lemma DeliveredExactly(pf: Platform, st0: State, reqs: seq<Request>, all: seq<Request>, envs: seq<Env>,
                         session: Session, st: State, emitted: seq<byte>, frames: seq<seq<byte>>, j: nat)
    requires BothEnds(pf, st0, reqs, all, envs, session, st, emitted, frames) && j < |reqs|
    ensures |frames| == |reqs| && Talked(reqs[j..], frames[j..])
    ensures Delivered(reqs[j..], frames[j..])
         == if LastSectorTorn(reqs, session) then ExpectedFile(pf, reqs[j..][..|reqs| - 1 - j]) + Zeros()
            else ExpectedFile(pf, reqs[j..])
  {
    hide *;
    EndsTalked(pf, st0, reqs, all, envs, session, st, emitted, frames);
    TalkedFrom(reqs, frames, j);
    AllBring(pf, st0, reqs, all, envs, session, st, emitted, frames, j);
    if |session.log| < |reqs| { BeyondLog(pf, st0, reqs, all, envs, session, st, emitted, frames); }
    TalkedLengths(reqs[j..], frames[j..]);
    if |session.log| < |reqs| {
      DeliveredLast(pf, reqs[j..], frames[j..]);
      TornOrNot(reqs, session);
    } else {
      ContentsBrought(pf, reqs[j..], frames[j..]);
      TornOrNot(reqs, session);
    }
  }

  lemma EndsTalked(pf: Platform, st0: State, reqs: seq<Request>, all: seq<Request>, envs: seq<Env>,
                   session: Session, st: State, emitted: seq<byte>, frames: seq<seq<byte>>)
    requires BothEnds(pf, st0, reqs, all, envs, session, st, emitted, frames)
    ensures Talked(reqs, frames)
  {
  }

  lemma TornOrNot(reqs: seq<Request>, session: Session)
    requires reqs != []
    ensures LastSectorTorn(reqs, session)
        <==> session.aborted && |session.log| + 1 == |reqs| && reqs[|reqs| - 1].ReadSector?
  {
  }

  lemma AllBring(pf: Platform, st0: State, reqs: seq<Request>, all: seq<Request>, envs: seq<Env>,
                 session: Session, st: State, emitted: seq<byte>, frames: seq<seq<byte>>, j: nat)
    requires BothEnds(pf, st0, reqs, all, envs, session, st, emitted, frames) && j < |reqs| == |frames|
    requires Talked(reqs[j..], frames[j..])
    ensures forall k :: 0 <= k < |reqs| - j && k < |session.log| - j && IsRead(reqs[j..][k]) ==>
              frames[j..][k][12..] == Brought(pf, reqs[j..][k])
  {
    hide *;
    forall k | 0 <= k < |reqs| - j && k < |session.log| - j && IsRead(reqs[j..][k])
      ensures |frames[j..][k]| >= 12 && frames[j..][k][12..] == Brought(pf, reqs[j..][k])
    {
      ReadBrings(pf, st0, reqs, all, envs, session, st, emitted, frames, j + k);
    }
  }

  /** A dump that finishes, whatever greetings and sectors were asked for before it on the connection. */
  ghost predicate Finished(pf: Platform, st0: State, pre: seq<Request>, dev: Device, offset: uint32, size: uint32,
                           envs: seq<Env>, session: Session, st: State, emitted: seq<byte>, frames: seq<seq<byte>>)
  {
    && PoolInv(st0) && Preliminary(pre)
    && Serves(pf, st0, pre + DumpRequests(dev, offset, size) + [Deinit], envs, session, st, emitted)
    && Talked(pre + DumpRequests(dev, offset, size), frames) && Flatten(frames) <= emitted
  }

  lemma FinishedEnds(pf: Platform, st0: State, pre: seq<Request>, dev: Device, offset: uint32, size: uint32,
                     envs: seq<Env>, session: Session, st: State, emitted: seq<byte>, frames: seq<seq<byte>>)
    requires Finished(pf, st0, pre, dev, offset, size, envs, session, st, emitted, frames)
    ensures var reqs := pre + DumpRequests(dev, offset, size);
            BothEnds(pf, st0, reqs, reqs + [Deinit], envs, session, st, emitted, frames)
  {
    hide Serves, Talked, Flatten, PoolInv, DumpRequests;
    DumpIsReading(pre, dev, offset, size);
  }

  /** The client's file, when these are the frames of its dump. */
  ghost predicate FileIs(dev: Device, offset: uint32, size: uint32, frames: seq<seq<byte>>, content: seq<byte>) {
    Talked(DumpRequests(dev, offset, size), frames) && Delivered(DumpRequests(dev, offset, size), frames) == content
  }

  /** It has written the sectors of its plan, whatever the geometry of the partition, with the single exception of a
      last sector whose request was torn. */
  lemma DumpWritesPlan(pf: Platform, st0: State, pre: seq<Request>, dev: Device, offset: uint32, size: uint32,
                       envs: seq<Env>, session: Session, st: State, emitted: seq<byte>, frames: seq<seq<byte>>)
    requires Finished(pf, st0, pre, dev, offset, size, envs, session, st, emitted, frames)
    ensures |pre| <= |frames|
    ensures !LastSectorTorn(pre + DumpRequests(dev, offset, size), session) ==>
              FileIs(dev, offset, size, frames[|pre|..], Gather(pf, dev, SectorsRead(offset, size)))
    ensures LastSectorTorn(pre + DumpRequests(dev, offset, size), session) ==>
              size > 0
              && FileIs(dev, offset, size, frames[|pre|..],
                        Gather(pf, dev, SectorsRead(offset, size)[..size - 1]) + Zeros())
  {
    hide BothEnds, Talked, Delivered, Gather, SectorsRead, Finished;
    var dump := DumpRequests(dev, offset, size);
    var reqs := pre + dump;
    FinishedEnds(pf, st0, pre, dev, offset, size, envs, session, st, emitted, frames);
    DeliveredExactly(pf, st0, reqs, reqs + [Deinit], envs, session, st, emitted, frames, |pre|);
    assert reqs[|pre|..] == dump && reqs[|reqs| - 1] == dump[|dump| - 1];
    DumpExpected(pf, dev, offset, size);
    if LastSectorTorn(reqs, session) { DumpButLast(pf, dev, offset, size); }
  }

  /** The end-to-end theorem: over any chunking of both streams, and from any state of the two pools that the
      invariant allows, a dump that finishes has written exactly the partition, provided the split is sound for it
      and the request for its last sector was not torn. */
  lemma DumpIsPartition(pf: Platform, st0: State, pre: seq<Request>, dev: Device, offset: uint32, size: uint32,
                        envs: seq<Env>, session: Session, st: State, emitted: seq<byte>, frames: seq<seq<byte>>)
    requires Finished(pf, st0, pre, dev, offset, size, envs, session, st, emitted, frames) && Splittable(offset, size)
    ensures |pre| <= |frames|
    ensures !LastSectorTorn(pre + DumpRequests(dev, offset, size), session) ==>
              FileIs(dev, offset, size, frames[|pre|..], Sectors(pf, dev, offset, size))
    ensures LastSectorTorn(pre + DumpRequests(dev, offset, size), session) ==>
              size > 0 && FileIs(dev, offset, size, frames[|pre|..], Sectors(pf, dev, offset, size - 1) + Zeros())
  {
    hide Finished, FileIs, LastSectorTorn, DumpRequests;
    DumpWritesPlan(pf, st0, pre, dev, offset, size, envs, session, st, emitted, frames);
    SplitExactly(offset, size);
    assert SectorsOf(offset, size) == Consecutive(offset, size);
    GatherConsecutive(pf, dev, offset, size);
    if size > 0 {
      assert Consecutive(offset, size)[..size - 1] == Consecutive(offset, size - 1);
      GatherConsecutive(pf, dev, offset, size - 1);
    }
  }

  /** So the file is the partition if and only if no last sector was torn, or that sector is blank. */
  lemma DumpIsPartitionExactly(pf: Platform, st0: State, pre: seq<Request>, dev: Device, offset: uint32, size: uint32,
                               envs: seq<Env>, session: Session, st: State, emitted: seq<byte>, frames: seq<seq<byte>>)
    requires Finished(pf, st0, pre, dev, offset, size, envs, session, st, emitted, frames) && Splittable(offset, size)
    ensures |pre| <= |frames|
    ensures FileIs(dev, offset, size, frames[|pre|..], Sectors(pf, dev, offset, size))
        <==> (LastSectorTorn(pre + DumpRequests(dev, offset, size), session)
              ==> pf.disk(dev, offset + size - 1) == Zeros())
  {
    hide Finished, Talked, Delivered, LastSectorTorn, DumpRequests, Zeros;
    DumpIsPartition(pf, st0, pre, dev, offset, size, envs, session, st, emitted, frames);
    if size > 0 {
      var a, b := Sectors(pf, dev, offset, size - 1), pf.disk(dev, offset + size - 1);
      if a + b == a + Zeros() { Tails(a, b, Zeros()); }
    }
  }

  /** A whole session: the partition table entry the client goes by is the one in the device's first sector, and the
      file is the partition that entry describes. */
  lemma DeviceDumpIsPartition(pf: Platform, st0: State, dev: Device, pick: Pick, e: PartitionEntry, envs: seq<Env>,
                              session: Session, st: State, emitted: seq<byte>, frames: seq<seq<byte>>)
    requires Finished(pf, st0, [Ping, ReadSector(dev, 0)], dev, e.partitionOffset, e.partitionSize,
                      envs, session, st, emitted, frames)
    requires 2 <= |frames| && |frames[1]| == 12 + SECTOR
    requires pick.index < PARTITIONS && Entry(Parse(frames[1][12..]), pick) == e
    ensures Entry(Parse(pf.disk(dev, 0)), pick) == e
    ensures Splittable(e.partitionOffset, e.partitionSize)
            && !LastSectorTorn(DeviceRequests(dev, e.partitionOffset, e.partitionSize), session)
            ==> FileIs(dev, e.partitionOffset, e.partitionSize, frames[2..],
                       Sectors(pf, dev, e.partitionOffset, e.partitionSize))
  {
    hide *;
    FirstSectorIsDisk(pf, st0, dev, e.partitionOffset, e.partitionSize, envs, session, st, emitted, frames);
    DeviceIsPreliminary(dev, e.partitionOffset, e.partitionSize);
    if Splittable(e.partitionOffset, e.partitionSize) {
      DumpIsPartition(pf, st0, [Ping, ReadSector(dev, 0)], dev, e.partitionOffset, e.partitionSize,
                      envs, session, st, emitted, frames);
    }
  }

  lemma DeviceIsPreliminary(dev: Device, offset: uint32, size: uint32)
    ensures DeviceRequests(dev, offset, size) == [Ping, ReadSector(dev, 0)] + DumpRequests(dev, offset, size)
  {
  }

  lemma FirstSectorIsDisk(pf: Platform, st0: State, dev: Device, offset: uint32, size: uint32, envs: seq<Env>,
                          session: Session, st: State, emitted: seq<byte>, frames: seq<seq<byte>>)
    requires Finished(pf, st0, [Ping, ReadSector(dev, 0)], dev, offset, size, envs, session, st, emitted, frames)
    ensures 2 <= |frames| && |frames[1]| >= 12 && frames[1][12..] == pf.disk(dev, 0)
  {
    hide Finished, BothEnds;
    var reqs := [Ping, ReadSector(dev, 0)] + DumpRequests(dev, offset, size);
    FinishedEnds(pf, st0, [Ping, ReadSector(dev, 0)], dev, offset, size, envs, session, st, emitted, frames);
    if |session.log| < |reqs| { BeyondLog(pf, st0, reqs, reqs + [Deinit], envs, session, st, emitted, frames); }
    ReadBrings(pf, st0, reqs, reqs + [Deinit], envs, session, st, emitted, frames, 1);
  }

  // ---------- why the two conditions are there ----------

  /** A sector request whose body is torn is answered with the server's error, which the client reads as an unsigned
      number and does not see: it accepts the response, and with it a sector of zeros. */
  lemma TornRequestAccepted(r: Request)
    requires r.ReadSector?
    ensures |AbortReply(r)| == FrameLength(r)
    ensures Accepts(r, AbortReply(r)[..12]) && AbortReply(r)[12..] == Zeros()
  {
    assert AbortReply(r)[..12] == Header(Code(r), -1, 0);
    AcceptedExactly(r, -1, 0);
  }

  lemma Remainder(i: nat, d: nat)
    requires 0 < d
    ensures i % d == if i < d then i else (i - d) % d
  {
    if i >= d {
      var p, q := i / d, (i - d) / d;
      assert i == p * d + i % d && i - d == q * d + (i - d) % d;
      Multiples(p - (q + 1), d);
      assert (p - (q + 1)) * d == p * d - q * d - d;
    }
  }

  lemma Multiples(k: int, d: nat)
    ensures k > 0 ==> k * d >= d
    ensures k < 0 ==> k * d + d <= 0
  {
  }

  /** The cluster repeats the rest of the header, from the byte after the piece to the last. */
  predicate Repeats(content: seq<byte>, header: seq<byte>, piece: nat)
    requires |header| == 12 && piece < 12
  {
    forall i :: 0 <= i < |content| ==> content[i] == header[piece + i % (12 - piece)]
  }

  /** A content that equals itself shifted by the rest of the header repeats it, and the other way round. */
  lemma {:induction false} ShiftedRepeats(header: seq<byte>, content: seq<byte>, piece: nat, i: nat)
    requires |header| == 12 && piece < 12 && i < |content|
    requires forall k :: 0 <= k < |content| ==> content[k] == (header + content)[piece + k]
    ensures content[i] == header[piece + i % (12 - piece)]
  {
    Remainder(i, 12 - piece);
    if i >= 12 - piece { ShiftedRepeats(header, content, piece, i - (12 - piece)); }
  }

  lemma RepeatsShifted(header: seq<byte>, content: seq<byte>, piece: nat, i: nat)
    requires |header| == 12 && piece < 12 && i < |content| && Repeats(content, header, piece)
    ensures content[i] == (header + content)[piece + i]
  {
    Remainder(i, 12 - piece);
    if i >= 12 - piece { assert content[i - (12 - piece)] == header[piece + (i - (12 - piece)) % (12 - piece)]; }
  }

  /** When the first recv brings only a piece of the header of a cluster, the client takes the rest of it for the
      start of the cluster. It accepts the frame, over some stale bytes, if and only if the piece passes; and what it
      then writes is the cluster if and only if the cluster repeats that rest throughout. */
  lemma TornHeaderExactly(r: Request, header: seq<byte>, content: seq<byte>, piece: nat)
    requires r.ReadCluster? && |header| == 12 && |content| == CLUSTER && piece < 12
    ensures var frame := (header + content)[..piece + CLUSTER];
            && (FrameOk(r, frame) <==> Passes(r, header[..piece]))
            && (Data(r, frame) == content <==> Repeats(content, header, piece))
  {
    hide Repeats, Passes;
    var frame := (header + content)[..piece + CLUSTER];
    assert Data(r, frame) == frame[piece..] && frame[..piece] == header[..piece];
    if Data(r, frame) == content {
      assert forall k :: 0 <= k < CLUSTER ==> content[k] == frame[piece..][k] == (header + content)[piece + k];
      AllRepeats(header, content, piece);
    }
    if Repeats(content, header, piece) {
      forall i | 0 <= i < CLUSTER
        ensures frame[piece..][i] == content[i]
      {
        RepeatsShifted(header, content, piece, i);
      }
    }
  }

  lemma AllRepeats(header: seq<byte>, content: seq<byte>, piece: nat)
    requires |header| == 12 && piece < 12
    requires forall k :: 0 <= k < |content| ==> content[k] == (header + content)[piece + k]
    ensures Repeats(content, header, piece)
  {
    forall i | 0 <= i < |content|
      ensures content[i] == header[piece + i % (12 - piece)]
    {
      ShiftedRepeats(header, content, piece, i);
    }
  }

  /** Of a header the server sends, a piece passes if and only if no byte of the driver's error in it differs from 0:
      one of at most 8 bytes does, whatever the error. */
  lemma TornHeaderAccepted(r: Request, vitaErr: int32, proxyErr: int32, content: seq<byte>, piece: nat)
    requires r.ReadCluster? && |content| == CLUSTER && piece < 12
    ensures FrameOk(r, (Header(Code(r), vitaErr, proxyErr) + content)[..piece + CLUSTER])
        <==> forall k :: 0 <= k < piece - 8 ==> Le32(proxyErr)[k] == 0
  {
    hide FrameOk, Le32;
    var h := Header(Code(r), vitaErr, proxyErr);
    TornHeaderExactly(r, h, content, piece);
    assert forall k :: 0 <= k < 4 ==> h[k] == Le32(Code(r))[k];
    assert forall k :: 8 <= k < 12 ==> h[k] == Le32(proxyErr)[k - 8];
    if Passes(r, h[..piece]) {
      forall k | 0 <= k < piece - 8
        ensures Le32(proxyErr)[k] == 0
      {
        assert h[..piece][k + 8] == 0;
      }
    }
  }

  /** A cluster repeats zeros if and only if it is zeros. */
  lemma RepeatsZeros(content: seq<byte>, header: seq<byte>, piece: nat)
    requires |header| == 12 && piece < 12 && forall k :: piece <= k < 12 ==> header[k] == 0
    ensures Repeats(content, header, piece) <==> forall i :: 0 <= i < |content| ==> content[i] == 0
  {
    forall i | 0 <= i < |content|
      ensures content[i] == header[piece + i % (12 - piece)] <==> content[i] == 0
    {
    }
  }

  /** Past its first byte the header of a successful read is all zeros, so a piece of at least one byte spoils every
      cluster but the blank one. */
  lemma TornHeaderSpoils(r: Request, content: seq<byte>, piece: nat)
    requires r.ReadCluster? && |content| == CLUSTER && 0 < piece < 12
    ensures var frame := (Header(Code(r), 0, 0) + content)[..piece + CLUSTER];
            Data(r, frame) == content <==> forall i :: 0 <= i < CLUSTER ==> content[i] == 0
  {
    hide Data, FrameOk, Repeats, Header;
    var h := Header(Code(r), 0, 0);
    TornHeaderExactly(r, h, content, piece);
    HeaderZeros(r);
    RepeatsZeros(content, h, piece);
  }

  lemma HeaderZeros(r: Request)
    ensures forall k :: 1 <= k < 12 ==> Header(Code(r), 0, 0)[k] == 0
  {
    assert Le32(Code(r)) == [Code(r), 0, 0, 0] && Le32(0) == [0, 0, 0, 0];
  }
}
