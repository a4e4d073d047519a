/** Dumps that do finish, and the state of the server that decides it. */
module DumpProgress {
  import opened Words
  import opened Wire
  import opened Protocol
  import opened Sessions
  import opened PoolInvariant
  import opened DumpPlan
  import opened ClientModule
  import opened Dump

  /** The kernel answers every call with success. */
  predicate Obliging(env: Env) { Healthy(env) && env.read >= 0 && env.copy >= 0 }

  /** A request the server can serve while the pools are up, or down. */
  predicate Servable(pf: Platform, r: Request, up: bool) {
    match r
    case Ping => true
    case ReadSector(dev, _) => dev in pf.ready
    case ReadCluster(dev, _) => up && dev in pf.ready
    case Init(_, _) => !up && r == INIT
    case Deinit => up
    case _ => false
  }

  /** Both pools up with the client's geometry, or both down. */
  predicate Phase(st: State, up: bool) {
    PoolInv(st) && if up then st.server.up && st.driver.up && DumpGeometry(st.server) else !st.server.up
  }

  lemma HealthyState(pf: Platform, st: State, r: Request, env: Env, up: bool)
    requires Phase(st, up) && Servable(pf, r, up) && Obliging(env)
    ensures var sv := Serve(pf, st, r, env);
            !sv.closes && Phase(sv.st, !r.Deinit? && (up || r.Init?))
  {
    hide Header, Payload;
    InvBreaksExactly(pf, st, r, env);
  }

  lemma HealthyReply(pf: Platform, st: State, r: Request, env: Env, up: bool)
    requires Phase(st, up) && Servable(pf, r, up) && Obliging(env)
    ensures Serve(pf, st, r, env).reply[..12] == Header(Code(r), 0, 0)
    ensures r.Deinit? ==> Serve(pf, st, r, env).reply == Header(Code(r), 0, 0)
  {
    hide Header, Payload;
  }

  lemma HealthyStep(pf: Platform, st: State, r: Request, env: Env, up: bool)
    requires Phase(st, up) && Servable(pf, r, up) && Obliging(env)
    ensures var sv := Serve(pf, st, r, env);
            && !sv.closes && Phase(sv.st, !r.Deinit? && (up || r.Init?))
            && |sv.reply| == FrameLength(r) && Accepts(r, sv.reply[..12])
  {
    hide Serve, PoolInv, Obliging, FromLe32;
    HealthyState(pf, st, r, env, up);
    HealthyReply(pf, st, r, env, up);
    AcceptedExactly(r, 0, 0);
    if !r.Deinit? {
      InvIsOk(st);
      ReplyLength(pf, st, r, env);
    }
  }

  function Lengths(reqs: seq<Request>): nat {
    if reqs == [] then 0 else FrameLength(reqs[0]) + Lengths(reqs[1..])
  }

  /** One more acceptable response after a stretch of exactly the acceptable responses to reqs. */
  lemma {:induction false} AwaitedSnoc(reqs: seq<Request>, a: seq<byte>, r: Request, b: seq<byte>)
    requires Awaited(reqs, a) && |a| == Lengths(reqs) && |b| == FrameLength(r) && Accepts(r, b[..12])
    ensures Awaited(reqs + [r], a + b) && |a + b| == Lengths(reqs + [r])
  {
    hide Accepts, FrameLength;
    if reqs == [] {
      assert a + b == b && reqs + [r] == [r] && [r][1..] == [];
    } else {
      var n := FrameLength(reqs[0]);
      LengthAtLeast(reqs[0]);
      assert (reqs + [r])[1..] == reqs[1..] + [r] && (a + b)[n..] == a[n..] + b && (a + b)[..12] == a[..12];
      AwaitedSnoc(reqs[1..], a[n..], r, b);
    }
  }

  lemma LengthAtLeast(r: Request)
    ensures FrameLength(r) >= 12
  {
  }

  /** The pools are up from the first INIT on. */
  predicate UpAt(pre: seq<Request>, k: nat) { k > |pre| }

  ghost predicate AllObliging(envs: seq<Env>) { forall k :: 0 <= k < |envs| ==> Obliging(envs[k]) }

  ghost predicate AllServable(pf: Platform, pre: seq<Request>, reqs: seq<Request>) {
    forall k :: 0 <= k < |reqs| ==> Servable(pf, reqs[k], UpAt(pre, k)) && (reqs[k].Init? <==> k == |pre|)
                                    && (reqs[k].Deinit? ==> k == |reqs| - 1)
  }

  lemma ServableAt(pf: Platform, pre: seq<Request>, reqs: seq<Request>, envs: seq<Env>, k: nat)
    requires AllServable(pf, pre, reqs) && AllObliging(envs) && k < |reqs| <= |envs|
    ensures Servable(pf, reqs[k], UpAt(pre, k)) && Obliging(envs[k])
    ensures UpAt(pre, k + 1) == (UpAt(pre, k) || reqs[k].Init?) && (k > 0 ==> !reqs[k - 1].Deinit?)
  {
    hide Servable, Obliging;
  }

  lemma HealthyStart(pf: Platform, st0: State, pre: seq<Request>, reqs: seq<Request>, envs: seq<Env>)
    ensures reqs[..0] == [] && After(pf, st0, [], envs) == st0 && StaysOpen(pf, st0, reqs, envs, 0) && !UpAt(pre, 0)
    ensures Awaited([], Replies(pf, st0, [], envs)) && |Replies(pf, st0, [], envs)| == Lengths([])
  {
  }

  lemma StaysOpenNext(pf: Platform, st: State, reqs: seq<Request>, envs: seq<Env>, k: nat)
    requires k < |reqs| && k < |envs| && StaysOpen(pf, st, reqs, envs, k)
    requires !Serve(pf, After(pf, st, reqs[..k], envs), reqs[k], envs[k]).closes
    ensures StaysOpen(pf, st, reqs, envs, k + 1)
  {
    hide Serve, After;
  }

  lemma {:induction false} HealthyRun(pf: Platform, st0: State, pre: seq<Request>, reqs: seq<Request>, envs: seq<Env>,
                                      k: nat)
    requires Phase(st0, false) && AllServable(pf, pre, reqs) && AllObliging(envs) && k <= |reqs| <= |envs|
    ensures k == 0 || !reqs[k - 1].Deinit? ==> Phase(After(pf, st0, reqs[..k], envs), UpAt(pre, k))
    ensures StaysOpen(pf, st0, reqs, envs, k)
    ensures Awaited(reqs[..k], Replies(pf, st0, reqs[..k], envs))
            && |Replies(pf, st0, reqs[..k], envs)| == Lengths(reqs[..k])
  {
    hide *;
    if k == 0 {
      HealthyStart(pf, st0, pre, reqs, envs);
    } else {
      ServableAt(pf, pre, reqs, envs, k - 1);
      HealthyRun(pf, st0, pre, reqs, envs, k - 1);
      var st := After(pf, st0, reqs[..k - 1], envs);
      HealthyStep(pf, st, reqs[k - 1], envs[k - 1], UpAt(pre, k - 1));
      RunSnoc(pf, st0, reqs, envs, k - 1);
      var reply := Serve(pf, st, reqs[k - 1], envs[k - 1]).reply;
      AwaitedSnoc(reqs[..k - 1], Replies(pf, st0, reqs[..k - 1], envs), reqs[k - 1], reply);
      assert reqs[..k] == reqs[..k - 1] + [reqs[k - 1]];
      StaysOpenNext(pf, st0, reqs, envs, k - 1);
    }
  }

  lemma {:induction false} ClusterReadsServable(pf: Platform, dev: Device, offset: uint32, n: nat)
    requires dev in pf.ready
    ensures forall k :: 0 <= k < n ==> Servable(pf, ClusterReads(dev, offset, n)[k], true)
  {
    if n > 0 { ClusterReadsServable(pf, dev, offset, n - 1); }
  }

  lemma {:induction false} SectorReadsServable(pf: Platform, dev: Device, offset: uint32, size: uint32, n: nat)
    requires dev in pf.ready
    ensures forall k :: 0 <= k < n ==> Servable(pf, SectorReads(dev, offset, size, n)[k], true)
  {
    if n > 0 { SectorReadsServable(pf, dev, offset, size, n - 1); }
  }

  lemma DumpServable(pf: Platform, pre: seq<Request>, dev: Device, offset: uint32, size: uint32)
    requires Preliminary(pre) && dev in pf.ready && forall k :: 0 <= k < |pre| ==> Servable(pf, pre[k], false)
    ensures AllServable(pf, pre, pre + DumpRequests(dev, offset, size) + [Deinit])
  {
    ClusterReadsServable(pf, dev, offset, Clusters(size));
    SectorReadsServable(pf, dev, offset, size, Tail(size));
    ClusterReadsAt(dev, offset, Clusters(size));
    SectorReadsAt(dev, offset, size, Tail(size));
    hide ClusterReads, SectorReads;
  }

  lemma {:induction false} PreliminaryKeepsPools(pf: Platform, st0: State, reqs: seq<Request>, envs: seq<Env>, k: nat)
    requires k <= |reqs| && k <= |envs| && Preliminary(reqs[..k])
    ensures After(pf, st0, reqs[..k], envs) == st0
  {
    if k > 0 {
      assert reqs[..k][..k - 1] == reqs[..k - 1] && reqs[..k][k - 1] == reqs[k - 1];
      PreliminaryKeepsPools(pf, st0, reqs, envs, k - 1);
      RunSnoc(pf, st0, reqs, envs, k - 1);
    }
  }

  /** A server whose pool is up refuses the INIT of a dump, and drops the connection. */
  lemma InitRefused(pf: Platform, st0: State, pre: seq<Request>, all: seq<Request>, envs: seq<Env>, n: nat)
    requires Preliminary(pre) && st0.server.up && pre + [INIT] <= all
    requires |pre| < n <= |all| && n <= |envs|
    ensures !StaysOpen(pf, st0, all, envs, n)
  {
    assert all[|pre|] == INIT && all[..|pre|] == pre;
    PreliminaryKeepsPools(pf, st0, all, envs, |pre|);
    assert Serve(pf, After(pf, st0, all[..|pre|], envs), INIT, envs[|pre|]).closes;
  }

  /** With a device that is there, a kernel that obliges, and pools in agreement, no request of a dump makes the server
      drop the connection if and only if the server's pool is down at the start; and then the responses are the ones the
      client waits for. */
  lemma HealthyDumpFinishes(pf: Platform, st0: State, pre: seq<Request>, dev: Device, offset: uint32, size: uint32,
                            envs: seq<Env>)
    requires PoolInv(st0) && dev in pf.ready && AllObliging(envs)
    requires Preliminary(pre) && forall k :: 0 <= k < |pre| ==> Servable(pf, pre[k], false)
    requires |pre + DumpRequests(dev, offset, size) + [Deinit]| <= |envs|
    ensures var all := pre + DumpRequests(dev, offset, size) + [Deinit];
            && (StaysOpen(pf, st0, all, envs, |all|) <==> !st0.server.up)
            && (!st0.server.up ==> Awaited(all, Replies(pf, st0, all, envs)))
  {
    hide DumpRequests, AllServable, StaysOpen, Awaited, Replies, Servable, Preliminary;
    var all := pre + DumpRequests(dev, offset, size) + [Deinit];
    if st0.server.up {
      DumpStarts(dev, offset, size);
      assert (DumpRequests(dev, offset, size) + [Deinit])[0] == all[|pre|];
      InitRefused(pf, st0, pre, all, envs, |all|);
    } else {
      DumpServable(pf, pre, dev, offset, size);
      HealthyRun(pf, st0, pre, all, envs, |all|);
      assert all[..|all|] == all;
    }
  }

  // ---------- dumps that finish, with whatever headers ----------

  function Total(reqs: seq<Request>, f: Request -> nat): nat {
    if reqs == [] then 0 else Total(reqs[..|reqs| - 1], f) + f(reqs[|reqs| - 1])
  }

  lemma TotalNext(reqs: seq<Request>, f: Request -> nat, k: nat)
    requires k < |reqs|
    ensures Total(reqs[..k + 1], f) == Total(reqs[..k], f) + f(reqs[k])
  {
    assert reqs[..k + 1][..k] == reqs[..k];
  }

  lemma {:induction false} TotalGrows(reqs: seq<Request>, f: Request -> nat, k: nat, n: nat)
    requires k <= n <= |reqs|
    ensures Total(reqs[..k], f) <= Total(reqs[..n], f)
    decreases n - k
  {
    if k < n {
      TotalNext(reqs, f, k);
      TotalGrows(reqs, f, k + 1, n);
    }
  }

  /** The fewest bytes the client takes for a response, whatever it does with the header. */
  function LeastLength(r: Request): nat { if r.ReadSector? then FrameLength(r) else DataLength(r) }

  function IsPing(r: Request): nat { if r.Ping? then 1 else 0 }

  lemma {:induction false} FramesAtLeast(reqs: seq<Request>, frames: seq<seq<byte>>, k: nat)
    requires Received(reqs, frames) && k <= |reqs|
    ensures |Flatten(frames[..k])| >= Total(reqs[..k], LeastLength)
  {
    if k > 0 {
      FramesAtLeast(reqs, frames, k - 1);
      FlattenNext(frames, k - 1);
      TotalNext(reqs, LeastLength, k - 1);
      assert FrameOk(reqs[k - 1], frames[k - 1]);
    }
  }

  /** Only greetings have headers to save. */
  lemma {:induction false} PreliminaryLengths(reqs: seq<Request>, k: nat)
    requires k <= |reqs| && Preliminary(reqs[..k])
    ensures Total(reqs[..k], FrameLength) == Total(reqs[..k], LeastLength) + 22 * Total(reqs[..k], IsPing)
  {
    if k > 0 {
      assert reqs[..k][..k - 1] == reqs[..k - 1] && reqs[..k][k - 1] == reqs[k - 1];
      PreliminaryLengths(reqs, k - 1);
    }
  }

  /** A server whose pool is up answers the preliminaries, and the INIT of a dump with 12 bytes. */
  lemma {:induction false} RefusalLengths(pf: Platform, st0: State, pre: seq<Request>, reqs: seq<Request>,
                                          envs: seq<Env>, k: nat)
    requires st0.server.up && Preliminary(pre) && pre + [INIT] <= reqs && k <= |pre| + 1 && k <= |envs|
    ensures |Replies(pf, st0, reqs[..k], envs)| == Total(reqs[..k], FrameLength)
  {
    if k > 0 {
      RefusalLengths(pf, st0, pre, reqs, envs, k - 1);
      assert reqs[..k - 1] == pre[..k - 1] && reqs[k - 1] == (pre + [INIT])[k - 1];
      PreliminaryKeepsPools(pf, st0, reqs, envs, k - 1);
      RunSnoc(pf, st0, reqs, envs, k - 1);
      TotalNext(reqs, FrameLength, k - 1);
      RefusalLength(pf, st0, reqs[k - 1], envs[k - 1]);
    }
  }

  lemma RefusalLength(pf: Platform, st: State, r: Request, env: Env)
    requires st.server.up && (r.Ping? || r.ReadSector? || r == INIT)
    ensures |Serve(pf, st, r, env).reply| == FrameLength(r) && |AbortReply(r)| <= FrameLength(r)
  {
  }

  /** A dump that the client believes finished, on any network: its headers may have come in part. */
  ghost predicate Ended(pf: Platform, st0: State, pre: seq<Request>, dev: Device, offset: uint32, size: uint32,
                        envs: seq<Env>, session: Session, st: State, emitted: seq<byte>, frames: seq<seq<byte>>)
  {
    && Preliminary(pre)
    && Serves(pf, st0, pre + DumpRequests(dev, offset, size) + [Deinit], envs, session, st, emitted)
    && Received(pre + DumpRequests(dev, offset, size), frames) && Flatten(frames) <= emitted
  }

  /** A server whose pool is up emits no more than the responses to the preliminaries and its refusal. */
  lemma EmittedAtMost(pf: Platform, st0: State, pre: seq<Request>, all: seq<Request>, envs: seq<Env>,
                      session: Session, st: State, emitted: seq<byte>)
    requires st0.server.up && Preliminary(pre) && pre + [INIT] <= all
    requires Serves(pf, st0, all, envs, session, st, emitted)
    ensures |emitted| <= Total(all[..|pre| + 1], FrameLength)
  {
    hide Serve, After, Replies, Total, FrameLength, AbortReply;
    var n := |session.log|;
    assert all[..n] == session.log;
    var open := if session.aborted || n == 0 then n else n - 1;
    if open > |pre| { InitRefused(pf, st0, pre, all, envs, open); }
    RefusalLengths(pf, st0, pre, all, envs, n);
    TotalGrows(all, FrameLength, n, |pre| + 1);
    if session.aborted {
      assert all[n] == (pre + [INIT])[n];
      TotalNext(all, FrameLength, n);
      TotalGrows(all, FrameLength, n + 1, |pre| + 1);
      AbortLength(all[n]);
    }
  }

  lemma AbortLength(r: Request)
    requires r.Ping? || r.ReadSector? || r == INIT
    ensures |AbortReply(r)| <= FrameLength(r)
  {
  }

  /** Whatever the kernel and the network do, torn headers included: a dump of at least one sector that the client
      finishes found the server's pool down, unless dozens of greetings went before it. */
  lemma FinishedFoundPoolDown(pf: Platform, st0: State, pre: seq<Request>, dev: Device, offset: uint32, size: uint32,
                              envs: seq<Env>, session: Session, st: State, emitted: seq<byte>, frames: seq<seq<byte>>)
    requires Ended(pf, st0, pre, dev, offset, size, envs, session, st, emitted, frames) && size > 0
    requires 22 * Total(pre, IsPing) + 12 < SECTOR
    ensures !st0.server.up
  {
    hide Serves, Received, Total, Flatten, Clusters, Tail, ClusterReads, SectorReads;
    var reqs := pre + DumpRequests(dev, offset, size);
    var all := reqs + [Deinit];
    var n := |pre| + 1;
    if st0.server.up {
      FirstRead(dev, offset, size);
      assert pre + [INIT] <= all && reqs[..|pre|] == pre == all[..|pre|] && reqs[..n] == all[..n];
      EmittedAtMost(pf, st0, pre, all, envs, session, st, emitted);
      FramesTotal(reqs, frames, n + 1);
      TotalNext(reqs, LeastLength, n);
      TotalNext(reqs, LeastLength, n - 1);
      TotalNext(reqs, FrameLength, n - 1);
      PreliminaryLengths(reqs, |pre|);
    }
  }

  lemma FramesTotal(reqs: seq<Request>, frames: seq<seq<byte>>, k: nat)
    requires Received(reqs, frames) && k <= |reqs|
    ensures |Flatten(frames)| >= Total(reqs[..k], LeastLength)
  {
    FramesAtLeast(reqs, frames, k);
    FlattenPrefix(frames, k);
  }

  lemma FirstRead(dev: Device, offset: uint32, size: uint32)
    requires size > 0
    ensures var reqs := DumpRequests(dev, offset, size);
            |reqs| >= 2 && reqs[0] == INIT && LeastLength(reqs[1]) >= SECTOR
  {
    ClusterReadsAt(dev, offset, Clusters(size));
    SectorReadsAt(dev, offset, size, Tail(size));
  }

  /** What the repository's client sends before a dump is within that bound. */
  lemma OneGreeting(dev: Device)
    ensures Preliminary([Ping, ReadSector(dev, 0)]) && 22 * Total([Ping, ReadSector(dev, 0)], IsPing) + 12 < SECTOR
  {
    var pre := [Ping, ReadSector(dev, 0)];
    TotalNext(pre, IsPing, 0);
    TotalNext(pre, IsPing, 1);
    assert pre[..2] == pre && pre[..0] == [];
  }

  /** So a dump that breaks off between its INIT and its DEINIT leaves a server that no later dump gets past: one that
      finishes from there asked for nothing. */
  lemma BrokenDumpBlocks(pf: Platform, st0: State, pre: seq<Request>, dev: Device, offset: uint32, size: uint32,
                         envs: seq<Env>, k: nat,
                         pre': seq<Request>, dev': Device, offset': uint32, size': uint32, envs': seq<Env>,
                         session: Session, st: State, emitted: seq<byte>, frames: seq<seq<byte>>)
    requires PoolInv(st0) && !st0.server.up && dev in pf.ready && AllObliging(envs)
    requires Preliminary(pre) && forall j :: 0 <= j < |pre| ==> Servable(pf, pre[j], false)
    requires |pre| < k < |pre + DumpRequests(dev, offset, size) + [Deinit]| <= |envs|
    requires Ended(pf, After(pf, st0, (pre + DumpRequests(dev, offset, size) + [Deinit])[..k], envs),
                   pre', dev', offset', size', envs', session, st, emitted, frames)
    requires 22 * Total(pre', IsPing) + 12 < SECTOR
    ensures size' == 0
  {
    hide DumpRequests, AllObliging, Servable, Preliminary, Ended, Total, After, Awaited, Replies, StaysOpen, Serve;
    var all := pre + DumpRequests(dev, offset, size) + [Deinit];
    DumpServable(pf, pre, dev, offset, size);
    HealthyRun(pf, st0, pre, all, envs, k);
    if size' > 0 {
      FinishedFoundPoolDown(pf, After(pf, st0, all[..k], envs), pre', dev', offset', size', envs',
                            session, st, emitted, frames);
    }
  }
}
