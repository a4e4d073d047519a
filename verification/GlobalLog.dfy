/** The reference-counted log of driver/glog.c: each call runs under a mutex, so any number of threads make a
    sequence of atomic steps. */
module GlobalLog {
  type Message = seq<char>

  /** The two globals, and on the operating system's side the open handles and what was written to the file. */
  datatype Log = Log(fd: int, refs: int, handles: set<int>, file: seq<Message>)

  const INITIAL := Log(-1, 0, {}, [])

  /** Whether an open reaches the operating system; r is then its answer. */
  predicate Attempts(s: Log) { s.fd == -1 && s.refs == 0 }

  function Opened(s: Log, r: int): Log {
    if Attempts(s) then
      s.(fd := r, refs := s.refs + 1, handles := if r >= 0 then s.handles + {r} else s.handles)
    else s.(refs := s.refs + 1)
  }

  function Closed(s: Log): Log {
    if s.fd >= 0 && s.refs == 1 then s.(fd := -1, refs := 0, handles := s.handles - {s.fd})
    else s.(refs := s.refs - 1)
  }

  function Wrote(s: Log, msg: Message): Log {
    if s.fd >= 0 then s.(file := s.file + [msg]) else s
  }

  class Logger {
    var globalLogFd: int
    var globalRefCtx: int
    var handles: set<int>
    var file: seq<Message>

    function State(): Log
      reads this
    {
      Log(globalLogFd, globalRefCtx, handles, file)
    }

    constructor ()
      ensures State() == INITIAL
    {
      globalLogFd, globalRefCtx, handles, file := -1, 0, {}, [];
    }

    method OpenGlobalLog(answer: int)
      modifies this
      ensures State() == Opened(old(State()), answer)
    {
      if globalLogFd == -1 && globalRefCtx == 0 {
        globalLogFd := answer;
        if answer >= 0 { handles := handles + {answer}; }
      }
      globalRefCtx := globalRefCtx + 1;
    }

    method CloseGlobalLog()
      modifies this
      ensures State() == Closed(old(State()))
    {
      globalRefCtx := globalRefCtx - 1;
      if globalLogFd >= 0 && globalRefCtx == 0 {
        handles := handles - {globalLogFd};
        globalLogFd := -1;
      }
    }

    method FileGlobalWriteLen(msg: Message)
      modifies this
      ensures State() == Wrote(old(State()), msg)
    {
      if globalLogFd >= 0 {
        file := file + [msg];
      }
    }
  }

  // ---------- threads ----------

  datatype Event = Open(t: nat, answer: int) | Close(t: nat) | Write(t: nat, msg: Message)

  /** The log and how deeply each thread is nested in its own open/close pairs. */
  datatype World = World(log: Log, depth: seq<nat>)

  /** Threads close only what they opened; the system never hands out a handle that is still open. */
  predicate Enabled(w: World, e: Event) {
    && e.t < |w.depth|
    && (e.Close? ==> w.depth[e.t] > 0)
    && (e.Open? ==> e.answer !in w.log.handles)
  }

  /** What one call does to the log. */
  function Called(s: Log, e: Event): Log {
    match e
    case Open(_, r) => Opened(s, r)
    case Close(_) => Closed(s)
    case Write(_, msg) => Wrote(s, msg)
  }

  function Next(w: World, e: Event): World
    requires Enabled(w, e)
  {
    match e
    case Open(t, _) => World(Called(w.log, e), w.depth[t := w.depth[t] + 1])
    case Close(t) => World(Called(w.log, e), w.depth[t := w.depth[t] - 1])
    case Write(_, _) => World(Called(w.log, e), w.depth)
  }

  /** An interleaving: every event is enabled where it happens. */
  predicate Run(w: World, es: seq<Event>)
    decreases |es|
  {
    es == [] || (Enabled(w, es[0]) && Run(Next(w, es[0]), es[1..]))
  }

  function After(w: World, es: seq<Event>): World
    requires Run(w, es)
    decreases |es|
  {
    if es == [] then w else After(Next(w, es[0]), es[1..])
  }

  function Sum(d: seq<nat>): nat { if d == [] then 0 else d[0] + Sum(d[1..]) }

  lemma {:induction false} SumUpdate(d: seq<nat>, t: nat, v: nat)
    requires t < |d|
    ensures Sum(d[t := v]) == Sum(d) - d[t] + v
    ensures d[t] <= Sum(d)
  {
    if t > 0 {
      SumUpdate(d[1..], t - 1, v);
      assert d[t := v][1..] == d[1..][t - 1 := v];
    }
  }

  ghost predicate Inv(w: World) {
    && w.log.refs == Sum(w.depth)
    && w.log.handles == (if w.log.fd >= 0 then {w.log.fd} else {})
    && (w.log.fd >= 0 ==> w.log.refs > 0)
  }

  lemma InvStep(w: World, e: Event)
    requires Inv(w) && Enabled(w, e)
    ensures Inv(Next(w, e))
  {
    match e
    case Open(t, r) => SumUpdate(w.depth, t, w.depth[t] + 1);
    case Close(t) => SumUpdate(w.depth, t, w.depth[t] - 1);
    case Write(_, _) =>
  }

  lemma {:induction false} InvRun(w: World, es: seq<Event>)
    requires Inv(w) && Run(w, es)
    ensures Inv(After(w, es))
    decreases |es|
  {
    if es != [] {
      InvStep(w, es[0]);
      InvRun(Next(w, es[0]), es[1..]);
    }
  }

  /** Over every interleaving of any number of threads with balanced open/close: the counter is the sum of the
      threads' nesting depths, at most one handle is open and it is the descriptor, and once the counter is back
      to 0 every handle has been closed. */
  lemma LogSafety(n: nat, es: seq<Event>)
    requires Run(World(INITIAL, seq(n, _ => 0)), es)
    ensures var w := After(World(INITIAL, seq(n, _ => 0)), es);
            && w.log.refs == Sum(w.depth)
            && w.log.handles == (if w.log.fd >= 0 then {w.log.fd} else {})
            && (w.log.refs == 0 ==> w.log.fd < 0 && w.log.handles == {})
  {
    ZeroDepths(n);
    InvRun(World(INITIAL, seq(n, _ => 0)), es);
  }

  lemma {:induction false} ZeroDepths(n: nat)
    ensures Sum(seq(n, _ => 0)) == 0
  {
    if n > 0 {
      assert seq(n, _ => 0)[1..] == seq(n - 1, _ => 0);
      ZeroDepths(n - 1);
    }
  }

  // ---------- what a thread sees between its own open and close ----------

  /** Thread t stays inside at least one of its own open/close pairs throughout. */
  predicate Inside(w: World, es: seq<Event>, t: nat)
    requires Run(w, es)
    decreases |es|
  {
    t < |w.depth| && w.depth[t] > 0 && (es == [] || Inside(Next(w, es[0]), es[1..], t))
  }

  /** The messages of a stretch of the run, whoever wrote them. */
  function Messages(es: seq<Event>): seq<Message> {
    if es == [] then []
    else (if es[0].Write? then [es[0].msg] else []) + Messages(es[1..])
  }

  lemma InsideStep(w: World, e: Event, t: nat)
    requires Inv(w) && Enabled(w, e) && t < |w.depth| && w.depth[t] > 0 && Next(w, e).depth[t] > 0
    ensures Next(w, e).log.fd == w.log.fd
    ensures Next(w, e).log.file == w.log.file + (if w.log.fd < 0 then [] else if e.Write? then [e.msg] else [])
  {
    InvStep(w, e);
    SumUpdate(w.depth, t, 0);
    SumUpdate(Next(w, e).depth, t, 0);
  }

  /** While a thread is inside, no other thread can open or close the file under it: the descriptor stays what it
      was, and if it is live every message of the stretch reaches the file, in order. */
  lemma {:induction false} InsideSeesOneDescriptor(w: World, es: seq<Event>, t: nat)
    requires Inv(w) && Run(w, es) && Inside(w, es, t)
    ensures After(w, es).log.fd == w.log.fd
    ensures After(w, es).log.file == w.log.file + (if w.log.fd >= 0 then Messages(es) else [])
    decreases |es|
  {
    if es != [] {
      hide Inv, Next, Enabled;
      InvStep(w, es[0]);
      InsideStep(w, es[0], t);
      InsideSeesOneDescriptor(Next(w, es[0]), es[1..], t);
      var head := if es[0].Write? then [es[0].msg] else [];
      assert w.log.file + (head + Messages(es[1..])) == (w.log.file + head) + Messages(es[1..]);
    } else {
      assert w.log.file + [] == w.log.file;
    }
  }

  // ---------- failed opens ----------

  /** Some open of the run reached the system and was answered with a negative code other than -1. */
  predicate Poisoned(w: World, es: seq<Event>)
    requires Run(w, es)
    decreases |es|
  {
    es != [] && ((es[0].Open? && Attempts(w.log) && es[0].answer < -1) || Poisoned(Next(w, es[0]), es[1..]))
  }

  /** The descriptor is such a code for good from the first such answer on, and only then. */
  lemma {:induction false} PoisonedForever(w: World, es: seq<Event>)
    requires Run(w, es)
    ensures After(w, es).log.fd < -1 <==> w.log.fd < -1 || Poisoned(w, es)
    ensures w.log.fd < -1 ==> After(w, es).log.fd == w.log.fd && After(w, es).log.file == w.log.file
    decreases |es|
  {
    if es != [] { PoisonedForever(Next(w, es[0]), es[1..]); }
  }

  /** A run without such an answer asks the system for the file exactly on the opens that take the counter from 0
      to 1: a -1 is retried then, and no sooner. */
  lemma RetryExactly(w: World, es: seq<Event>)
    requires Inv(w) && w.log.fd >= -1 && Run(w, es) && !Poisoned(w, es)
    ensures Attempts(After(w, es).log) <==> After(w, es).log.refs == 0
  {
    InvRun(w, es);
    PoisonedForever(w, es);
  }

  // ---------- without the balance ----------

  /** Any sequence of calls, balanced or not. */
  function Calls(s: Log, es: seq<Event>): Log {
    if es == [] then s else Called(Calls(s, es[..|es| - 1]), es[|es| - 1])
  }

  function Opens(es: seq<Event>): nat {
    if es == [] then 0 else Opens(es[..|es| - 1]) + (if es[|es| - 1].Open? then 1 else 0)
  }

  function Closes(es: seq<Event>): nat {
    if es == [] then 0 else Closes(es[..|es| - 1]) + (if es[|es| - 1].Close? then 1 else 0)
  }

  /** As long as the system grants every open, the descriptor is live if and only if there have been more opens than
      closes: threads that close too often take the file from the others, and keep the next opens from getting it
      back. */
  lemma {:induction false} LiveExactly(es: seq<Event>)
    requires forall k :: 0 <= k < |es| && es[k].Open? ==> es[k].answer >= 0
    ensures Calls(INITIAL, es).fd >= 0 <==> Opens(es) > Closes(es)
    ensures Calls(INITIAL, es).refs == Opens(es) - Closes(es) && Calls(INITIAL, es).fd >= -1
  {
    if es != [] { LiveExactly(es[..|es| - 1]); }
  }

  /** So a message reaches the file if and only if opens outnumber closes when it is written. */
  lemma MessageKeptExactly(es: seq<Event>, t: nat, msg: Message)
    requires forall k :: 0 <= k < |es| && es[k].Open? ==> es[k].answer >= 0
    ensures Calls(INITIAL, es + [Write(t, msg)]).file
         == Calls(INITIAL, es).file + (if Opens(es) > Closes(es) then [msg] else [])
  {
    LiveExactly(es);
    assert (es + [Write(t, msg)])[..|es|] == es;
  }

  /** The messages written while opens outnumber closes, in order. */
  function Kept(es: seq<Event>): seq<Message> {
    if es == [] then []
    else
      var n := |es| - 1;
      Kept(es[..n]) + (if es[n].Write? && Opens(es[..n]) > Closes(es[..n]) then [es[n].msg] else [])
  }

  /** The whole file: exactly those messages. No open and no close changes what is already there. */
  lemma {:induction false} FileExactly(es: seq<Event>)
    requires forall k :: 0 <= k < |es| && es[k].Open? ==> es[k].answer >= 0
    ensures Calls(INITIAL, es).file == Kept(es)
  {
    if es != [] {
      FileExactly(es[..|es| - 1]);
      LiveExactly(es[..|es| - 1]);
    }
  }

  /** Whatever the system answers, nothing that reached the file is lost. */
  lemma {:induction false} FileGrows(s: Log, es: seq<Event>, k: nat)
    requires k <= |es|
    ensures Calls(s, es[..k]).file <= Calls(s, es).file
    decreases |es| - k
  {
    if k < |es| {
      FileGrows(s, es, k + 1);
      assert es[..k + 1][..k] == es[..k];
    } else {
      assert es[..k] == es;
    }
  }

  lemma {:induction false} CallsFirst(s: Log, es: seq<Event>)
    requires es != []
    ensures Calls(s, es) == Calls(Called(s, es[0]), es[1..])
  {
    var n := |es| - 1;
    if n > 0 {
      CallsFirst(s, es[..n]);
      assert es[..n][1..] == es[1..][..n - 1];
    } else {
      assert es[..0] == [] == es[1..];
    }
  }

  /** An interleaving of balanced threads is such a sequence of calls. */
  lemma {:induction false} RunIsCalls(w: World, es: seq<Event>)
    requires Run(w, es)
    ensures After(w, es).log == Calls(w.log, es)
    decreases |es|
  {
    if es != [] {
      RunIsCalls(Next(w, es[0]), es[1..]);
      CallsFirst(w.log, es);
    }
  }

  /** One close too many, and the next open neither opens the file nor lets its writer reach it, whatever the answer. */
  lemma UnbalancedCloseLosesMessages(t: nat, answer: int, msg: Message)
    ensures Calls(INITIAL, [Close(t), Open(t, answer), Write(t, msg)]).file == []
  {
    var es := [Close(t), Open(t, answer), Write(t, msg)];
    assert es[..2] == [Close(t), Open(t, answer)] && es[..2][..1] == [Close(t)] && es[..2][..1][..0] == [];
    assert Calls(INITIAL, es[..2][..1]) == Closed(INITIAL);
  }
}
