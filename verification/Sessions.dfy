/** What one connection to the server comes to, stated on values: the contract of a handler, the invariant of the
    command loop, and the meaning of a finished connection. */
module Sessions {
  import opened Words
  import opened Wire
  import opened Pools
  import opened Protocol
  import opened Sockets

  /** How a handler may leave things, for request r with "rest" still to come on the connection: it answered and
      moved to the state Serve says, or the body came up short, it said so, and at most part of a cluster write
      reached the pool. A negative return code drops the connection; and a handler that returns on a live
      connection has sent its whole response and consumed exactly its request. */
  ghost predicate Handled(pf: Platform, r: Request, rest: seq<byte>, env: Env, st0: State, out0: seq<byte>,
                          st: State, incoming: seq<byte>, out: seq<byte>, live: bool,
                          rc: int, aborted: bool, torn: seq<byte>)
  {
    if aborted then
      && rc < 0
      && out0 <= out <= out0 + AbortReply(r)
      && st == st0.(server := Loaded(st0.server, torn))
    else
      var sv := Serve(pf, st0, r, env);
      && st == sv.st
      && out0 <= out <= out0 + sv.reply
      && (rc >= 0 && live ==> out == out0 + sv.reply && !sv.closes && incoming <= rest)
  }

  /** A request that has arrived whole, on a connection that gets as many calls through as its body and its response
      have bytes. */
  ghost predicate Smooth(r: Request, sv: Served, rest: seq<byte>, incoming: seq<byte>, script: seq<int>, live: bool) {
    live && incoming == Body(r) + rest && Generous(script, |Body(r)| + |sv.reply|)
  }

  /** Such a request is answered: the handler does not give up, uses no more calls than that, drops the connection
      exactly when Serve says so, and otherwise leaves exactly what follows the request. */
  ghost predicate Answered(r: Request, sv: Served, rest: seq<byte>, script0: seq<int>,
                           incoming: seq<byte>, script: seq<int>, live: bool, rc: int, aborted: bool)
  {
    && !aborted && live && Generous(script, |script0| - |Body(r)| - |sv.reply|)
    && (sv.closes <==> rc < 0) && (rc >= 0 ==> incoming == rest)
  }

  // ---------- one connection ----------

  /** What a connection comes to: the requests served, in order; whether the next one's body came up short; and how
      much of its cluster data had reached the pool by then. */
  datatype Session = Session(log: seq<Request>, aborted: bool, torn: seq<byte>)

  /** None of the first k requests makes the server drop the connection. */
  ghost predicate StaysOpen(pf: Platform, st: State, reqs: seq<Request>, envs: seq<Env>, k: nat)
    requires k <= |reqs| && k <= |envs|
  {
    forall j :: 0 <= j < k ==> !Serve(pf, After(pf, st, reqs[..j], envs), reqs[j], envs[j]).closes
  }

  /** Every request whose turn comes is well-formed then. */
  ghost predicate WellFormedRun(pf: Platform, st: State, reqs: seq<Request>, envs: seq<Env>) {
    forall k :: 0 <= k < |reqs| && k <= |envs| && StaysOpen(pf, st, reqs, envs, k) ==>
      WellFormed(After(pf, st, reqs[..k], envs), reqs[k])
  }

  /** The requests served are a prefix of those the client encoded, the connection closed no earlier than after the
      last of them, the state is the one they lead to, and what was emitted is their responses in order, of which
      the last one may be cut off. */
  ghost predicate Serves(pf: Platform, st0: State, reqs: seq<Request>, envs: seq<Env>, session: Session,
                         st: State, emitted: seq<byte>)
  {
    var log := session.log;
    && log <= reqs && |log| <= |envs|
    && var st1 := After(pf, st0, log, envs);
       if session.aborted then
         && |log| < |reqs|
         && StaysOpen(pf, st0, reqs, envs, |log|)
         && st == st1.(server := Loaded(st1.server, session.torn))
         && Replies(pf, st0, log, envs) <= emitted <= Replies(pf, st0, log, envs) + AbortReply(reqs[|log|])
       else
         && (log != [] ==> StaysOpen(pf, st0, reqs, envs, |log| - 1))
         && st == st1
         && (log != [] ==> Replies(pf, st0, log[..|log| - 1], envs) <= emitted)
         && emitted <= Replies(pf, st0, log, envs)
  }

  /** Bytes that do not start with a command word: what a client may send after its last request. */
  predicate NoCommand(tail: seq<byte>) { |tail| >= 4 ==> CommandWord(tail[..4]) < 0 || CommandWord(tail[..4]) >= 16 }

  /** The invariant of the command loop after k requests, of a client that sends reqs and then tail. */
  ghost predicate Between(pf: Platform, st0: State, out0: seq<byte>, reqs: seq<Request>, envs: seq<Env>,
                          tail: seq<byte>, k: nat,
                          st: State, incoming: seq<byte>, out: seq<byte>, live: bool)
  {
    && k <= |reqs| && k <= |envs| && out0 <= out
    && Serves(pf, st0, reqs, envs, Session(reqs[..k], false, []), st, out[|out0|..])
    && (live ==> && out == out0 + Replies(pf, st0, reqs[..k], envs)
                 && StaysOpen(pf, st0, reqs, envs, k)
                 && incoming <= EncodeAll(reqs[k..]) + tail)
  }

  /** Everything from request k on has arrived, and the connection gets as many more calls through as there are bytes of
      requests and responses left to move. */
  ghost predicate Arrived(pf: Platform, st0: State, reqs: seq<Request>, envs: seq<Env>, tail: seq<byte>, k: nat,
                          incoming: seq<byte>, script: seq<int>, live: bool)
  {
    && live && k <= |reqs| <= |envs| && incoming == EncodeAll(reqs[k..]) + tail
    && Generous(script, |incoming| + |Replies(pf, st0, reqs, envs)| - |Replies(pf, st0, reqs[..k], envs)|)
  }

  /** Everything the client asked for was served and answered in full; or a request made the server drop the
      connection, and it was the last one served. */
  ghost predicate Complete(pf: Platform, st0: State, reqs: seq<Request>, envs: seq<Env>, session: Session,
                           emitted: seq<byte>)
    requires |reqs| <= |envs|
  {
    var log := session.log;
    && !session.aborted
    && if StaysOpen(pf, st0, reqs, envs, |reqs|) then log == reqs && emitted == Replies(pf, st0, reqs, envs)
       else && log != [] && log <= reqs
            && Serve(pf, After(pf, st0, log[..|log| - 1], envs), log[|log| - 1], envs[|log| - 1]).closes
  }

  /** What a connection comes to, from its state and the server's at the start to those at the end: it serves a prefix
      of reqs, and all of them if the network lets it. */
  ghost predicate Conducted(pf: Platform, st0: State, reqs: seq<Request>, envs: seq<Env>, tail: seq<byte>,
                            incoming: seq<byte>, script: seq<int>, out0: seq<byte>, session: Session, st: State,
                            out: seq<byte>)
  {
    && out0 <= out
    && Serves(pf, st0, reqs, envs, session, st, out[|out0|..])
    && (Arrived(pf, st0, reqs, envs, tail, 0, incoming, script, true) ==>
          Complete(pf, st0, reqs, envs, session, out[|out0|..]))
  }

  lemma ArrivedWord(pf: Platform, st0: State, reqs: seq<Request>, envs: seq<Env>, tail: seq<byte>, k: nat, st: State,
                    incoming: seq<byte>, script: seq<int>, word: seq<byte>, left: seq<byte>, script': seq<int>)
    requires Arrived(pf, st0, reqs, envs, tail, k, incoming, script, true) && k < |reqs|
    requires st == After(pf, st0, reqs[..k], envs)
    ensures |incoming| >= 4 && Generous(script, 1)
    ensures var sv := Serve(pf, st, reqs[k], envs[k]);
            incoming == word + left && |word| == 4 && script' == script[1..]
            ==> && Smooth(reqs[k], sv, EncodeAll(reqs[k + 1..]) + tail, left, script', true)
                && |script'| + 1 >= |incoming| + |Replies(pf, st0, reqs, envs)| - |Replies(pf, st0, reqs[..k], envs)|
  {
    hide Serve, After, Replies;
    NextRequest(reqs, tail, k);
    RunSnoc(pf, st0, reqs, envs, k);
    RepliesPrefix(pf, st0, reqs, envs, k + 1, |reqs|);
    assert reqs[..|reqs|] == reqs;
    if incoming == word + left && |word| == 4 {
      WholePiece(incoming, word, left, Le32(Code(reqs[k])), Body(reqs[k]) + (EncodeAll(reqs[k + 1..]) + tail));
      assert left == incoming[4..];
    }
  }

  lemma ArrivedNext(pf: Platform, st0: State, reqs: seq<Request>, envs: seq<Env>, tail: seq<byte>, k: nat, st: State,
                    sv: Served,
                    script0: seq<int>, incoming: seq<byte>, script: seq<int>, live: bool, rc: int, aborted: bool)
    requires k < |reqs| <= |envs| && st == After(pf, st0, reqs[..k], envs) && sv == Serve(pf, st, reqs[k], envs[k])
    requires |script0| + 1 >= |EncodeAll(reqs[k..]) + tail|
             + |Replies(pf, st0, reqs, envs)| - |Replies(pf, st0, reqs[..k], envs)|
    requires Answered(reqs[k], sv, EncodeAll(reqs[k + 1..]) + tail, script0, incoming, script, live, rc, aborted)
    ensures !aborted && (sv.closes <==> rc < 0)
    ensures rc >= 0 ==> Arrived(pf, st0, reqs, envs, tail, k + 1, incoming, script, live)
  {
    hide Serve, After, Replies;
    NextRequest(reqs, tail, k);
    RunSnoc(pf, st0, reqs, envs, k);
  }

  /** A client, which sends what suits the state it finds the server in: whatever that is, a start of well-formed
      requests and then of bytes that are no command. */
  ghost predicate Speaks(pf: Platform, client: State -> seq<Request>, tail: State -> seq<byte>, envs: seq<Env>,
                         stream: State -> seq<byte>)
  {
    forall st: State :: StateOk(st) ==>
      && stream(st) <= EncodeAll(client(st)) + tail(st) && NoCommand(tail(st))
      && WellFormedRun(pf, st, client(st), envs)
  }

  /** A client that writes clusters, whatever it finds: it asks for clusters of 0x1000 bytes and then writes some, which
      the server reads only if it has granted that. */
  lemma WriterSpeaks(pf: Platform, writes: seq<Request>, envs: seq<Env>)
    requires forall k :: 0 <= k < |writes| ==> writes[k].WriteCluster? && |writes[k].data| == 0x1000
    ensures Speaks(pf, st => [Init(SECTOR, 8)] + writes, st => [], envs, st => EncodeAll([Init(SECTOR, 8)] + writes))
  {
    hide EncodeAll;
    var reqs := [Init(SECTOR, 8)] + writes;
    forall st: State, k | StateOk(st) && 0 < k < |reqs| && k <= |envs| && StaysOpen(pf, st, reqs, envs, k)
      ensures WellFormed(After(pf, st, reqs[..k], envs), reqs[k])
    {
      WriterGeometry(pf, st, writes, envs, k);
    }
  }

  lemma {:induction false} WriterGeometry(pf: Platform, st: State, writes: seq<Request>, envs: seq<Env>, k: nat)
    requires forall j :: 0 <= j < |writes| ==> writes[j].WriteCluster?
    requires 0 < k <= |writes| + 1 && k <= |envs| && StaysOpen(pf, st, [Init(SECTOR, 8)] + writes, envs, k)
    ensures ClusterBytes(After(pf, st, ([Init(SECTOR, 8)] + writes)[..k], envs).server) == 0x1000
  {
    hide Serve, After, ClusterBytes;
    var reqs := [Init(SECTOR, 8)] + writes;
    RunSnoc(pf, st, reqs, envs, k - 1);
    WriterStep(pf, After(pf, st, reqs[..k - 1], envs), reqs[k - 1], envs[k - 1]);
    if k > 1 { WriterGeometry(pf, st, writes, envs, k - 1); }
  }

  lemma WriterStep(pf: Platform, st: State, r: Request, env: Env)
    ensures r == Init(SECTOR, 8) && !Serve(pf, st, r, env).closes ==>
              ClusterBytes(Serve(pf, st, r, env).st.server) == 0x1000
    ensures r.WriteCluster? ==> ClusterBytes(Serve(pf, st, r, env).st.server) == ClusterBytes(st.server)
  {
  }

  lemma SpeaksAt(pf: Platform, client: State -> seq<Request>, tail: State -> seq<byte>, envs: seq<Env>,
                 stream: State -> seq<byte>, st: State)
    requires Speaks(pf, client, tail, envs, stream) && StateOk(st)
    ensures stream(st) <= EncodeAll(client(st)) + tail(st) && NoCommand(tail(st))
    ensures WellFormedRun(pf, st, client(st), envs)
  {
  }

  lemma ArrivedIsLive(pf: Platform, st0: State, reqs: seq<Request>, envs: seq<Env>, tail: seq<byte>, k: nat,
                      incoming: seq<byte>, script: seq<int>, live: bool)
    requires Arrived(pf, st0, reqs, envs, tail, k, incoming, script, live)
    ensures live && k <= |reqs| <= |envs| && incoming == EncodeAll(reqs[k..]) + tail
            && (k == |reqs| ==> incoming == tail)
  {
    if k == |reqs| { assert reqs[|reqs|..] == []; }
  }

  /** A connection that closed after request k, and one that did not close before the last. */
  lemma CompleteStopped(pf: Platform, st0: State, out0: seq<byte>, reqs: seq<Request>, envs: seq<Env>, tail: seq<byte>,
                        k: nat,
                        st: State, incoming: seq<byte>, out: seq<byte>, live: bool, emitted: seq<byte>)
    requires Between(pf, st0, out0, reqs, envs, tail, k, st, incoming, out, live) && k < |reqs| <= |envs|
    requires Serve(pf, st, reqs[k], envs[k]).closes
    ensures Complete(pf, st0, reqs, envs, Session(reqs[..k + 1], false, []), emitted)
  {
    hide Serve, After, Replies;
    assert reqs[..k + 1][..k] == reqs[..k];
    assert !StaysOpen(pf, st0, reqs, envs, |reqs|);
  }

  lemma CompleteAll(pf: Platform, st0: State, out0: seq<byte>, reqs: seq<Request>, envs: seq<Env>, tail: seq<byte>,
                    st: State, incoming: seq<byte>, out: seq<byte>)
    requires Between(pf, st0, out0, reqs, envs, tail, |reqs|, st, incoming, out, true) && |reqs| <= |envs|
    ensures Complete(pf, st0, reqs, envs, Session(reqs, false, []), out[|out0|..])
  {
    hide Serve, After, Replies;
    assert reqs[..|reqs|] == reqs;
  }

  lemma BetweenStart(pf: Platform, st0: State, reqs: seq<Request>, envs: seq<Env>, tail: seq<byte>,
                     incoming: seq<byte>, out0: seq<byte>)
    requires incoming <= EncodeAll(reqs) + tail
    ensures Between(pf, st0, out0, reqs, envs, tail, 0, st0, incoming, out0, true)
  {
    assert reqs[0..] == reqs && out0[|out0|..] == [] && out0 + [] == out0;
  }

  lemma BetweenServes(pf: Platform, st0: State, out0: seq<byte>, reqs: seq<Request>, envs: seq<Env>, tail: seq<byte>,
                      k: nat,
                      st: State, incoming: seq<byte>, out: seq<byte>, live: bool)
    requires Between(pf, st0, out0, reqs, envs, tail, k, st, incoming, out, live)
    ensures k <= |reqs| && out0 <= out
    ensures Serves(pf, st0, reqs, envs, Session(reqs[..k], false, []), st, out[|out0|..])
  {
  }

  lemma BetweenState(pf: Platform, st0: State, out0: seq<byte>, reqs: seq<Request>, envs: seq<Env>, tail: seq<byte>,
                     k: nat,
                     st: State, incoming: seq<byte>, out: seq<byte>, live: bool)
    requires Between(pf, st0, out0, reqs, envs, tail, k, st, incoming, out, live)
    ensures k <= |reqs| && k <= |envs| && st == After(pf, st0, reqs[..k], envs)
  {
  }

  /** The stream from request k on starts with its command word. */
  lemma NextRequest(reqs: seq<Request>, tail: seq<byte>, k: nat)
    requires k < |reqs|
    ensures |EncodeAll(reqs[k..])| == 4 + |Body(reqs[k])| + |EncodeAll(reqs[k + 1..])|
    ensures EncodeAll(reqs[k..]) + tail == Le32(Code(reqs[k])) + (Body(reqs[k]) + (EncodeAll(reqs[k + 1..]) + tail))
  {
    hide Le32, Code, Body;
    assert reqs[k..][1..] == reqs[k + 1..];
    assert Encode(reqs[k]) + EncodeAll(reqs[k + 1..]) + tail
        == Le32(Code(reqs[k])) + (Body(reqs[k]) + (EncodeAll(reqs[k + 1..]) + tail));
  }

  /** A command word received on a live connection: in part it is no command, whole it is the next request's, and
      after the last request it is no command either. */
  lemma BetweenWord(pf: Platform, st0: State, out0: seq<byte>, reqs: seq<Request>, envs: seq<Env>, tail: seq<byte>,
                    k: nat,
                    st: State, incoming: seq<byte>, out: seq<byte>, word: seq<byte>, left: seq<byte>)
    requires Between(pf, st0, out0, reqs, envs, tail, k, st, incoming, out, true)
    requires incoming == word + left && 0 < |word| <= 4
    requires WellFormedRun(pf, st0, reqs, envs)
    requires NoCommand(tail)
    ensures k <= |reqs| && (k < |reqs| ==> WellFormed(st, reqs[k]))
    ensures |word| < 4 ==> CommandWord(word) < 0
    ensures |word| == 4 && k == |reqs| ==> CommandWord(word) < 0 || CommandWord(word) >= 16
    ensures |word| == 4 && k < |reqs| ==>
              CommandWord(word) == Code(reqs[k]) && left <= Body(reqs[k]) + (EncodeAll(reqs[k + 1..]) + tail)
  {
    hide After, Replies, StaysOpen, WellFormed, CommandWord, Code, Body;
    if |word| < 4 {
      ShortWord(word);
    } else if k == |reqs| {
      assert reqs[|reqs|..] == [];
      assert word == incoming[..4] == tail[..4];
    } else {
      var r, rest := reqs[k], EncodeAll(reqs[k + 1..]) + tail;
      NextRequest(reqs, tail, k);
      WholePiece(incoming, word, left, Le32(Code(r)), Body(r) + rest);
      WholeWord(Code(r));
    }
  }

  lemma RunSnoc(pf: Platform, st0: State, reqs: seq<Request>, envs: seq<Env>, k: nat)
    requires k < |reqs| && k < |envs|
    ensures var sv := Serve(pf, After(pf, st0, reqs[..k], envs), reqs[k], envs[k]);
            && After(pf, st0, reqs[..k + 1], envs) == sv.st
            && Replies(pf, st0, reqs[..k + 1], envs) == Replies(pf, st0, reqs[..k], envs) + sv.reply
  {
    assert reqs[..k + 1][..k] == reqs[..k];
  }

  lemma {:induction false} RepliesPrefix(pf: Platform, st: State, reqs: seq<Request>, envs: seq<Env>, k: nat, n: nat)
    requires k <= n <= |reqs| && n <= |envs|
    ensures Replies(pf, st, reqs[..k], envs) <= Replies(pf, st, reqs[..n], envs)
    decreases n - k
  {
    if k < n {
      RunSnoc(pf, st, reqs, envs, k);
      RepliesPrefix(pf, st, reqs, envs, k + 1, n);
    }
  }

  /** What has been emitted since out0, when it lies between a and a + b. */
  lemma Emission(out0: seq<byte>, a: seq<byte>, b: seq<byte>, out: seq<byte>)
    requires out0 + a <= out <= out0 + a + b
    ensures out0 <= out && a <= out[|out0|..] <= a + b
    ensures out == out0 + a + b ==> out == out0 + (a + b)
  {
    assert out[|out0|..] == (out0 + a + b)[|out0|..|out|];
    assert (out0 + a + b)[|out0|..] == a + b;
    assert out[|out0|..][..|a|] == out[..|out0| + |a|][|out0|..];
  }

  /** One request handled. */
  lemma BetweenStep(pf: Platform, st0: State, out0: seq<byte>, reqs: seq<Request>, envs: seq<Env>, tail: seq<byte>,
                    k: nat,
                    st: State, incoming: seq<byte>, out: seq<byte>,
                    st': State, incoming': seq<byte>, out': seq<byte>, live: bool,
                    rc: int, aborted: bool, torn: seq<byte>)
    requires Between(pf, st0, out0, reqs, envs, tail, k, st, incoming, out, true) && k < |reqs| && k < |envs|
    requires Handled(pf, reqs[k], EncodeAll(reqs[k + 1..]) + tail, envs[k], st, out, st', incoming', out', live, rc,
                     aborted,
                     torn)
    ensures out0 <= out'
    ensures aborted ==> rc < 0 && Serves(pf, st0, reqs, envs, Session(reqs[..k], true, torn), st', out'[|out0|..])
    ensures !aborted ==> Serves(pf, st0, reqs, envs, Session(reqs[..k + 1], false, []), st', out'[|out0|..])
    ensures rc >= 0 ==> Between(pf, st0, out0, reqs, envs, tail, k + 1, st', incoming', out', live)
  {
    hide Serve, After, Replies, EncodeAll, AbortReply;
    RunSnoc(pf, st0, reqs, envs, k);
    assert reqs[..k + 1][..k] == reqs[..k];
    var reply := if aborted then AbortReply(reqs[k]) else Serve(pf, st, reqs[k], envs[k]).reply;
    Emission(out0, Replies(pf, st0, reqs[..k], envs), reply, out');
  }
}
