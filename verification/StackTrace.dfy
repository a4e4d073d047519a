/** The stack scan of error_logger/stacktrace.c: keep the stack words that point into a known segment. */
module StackTrace {
  import opened Words
  import opened ModuleTable

  /** The characters of a C string: those before the first NUL. */
  function CString(s: seq<byte>): (r: seq<byte>)
    ensures r <= s && 0 !in r && (|r| < |s| ==> s[|r|] == 0)
  {
    if s == [] || s[0] == 0 then [] else [s[0]] + CString(s[1..])
  }

  /** What the caller asks for: every known address (verbose == 1), or those in one segment of one module. */
  datatype Query = Query(moduleNameSearch: seq<byte>, segIndexSearch: int, verbose: int)

  /** Whether the scan keeps this word, given the table it searches. */
  predicate Keeps(t: seq<SegmentInfo>, q: Query, word: uint32) {
    var segidx := FirstHit(t, word);
    segidx >= 0
    && (q.verbose == 1
        || (t[segidx].seg == q.segIndexSearch && CString(q.moduleNameSearch) == CString(t[segidx].moduleName)))
  }

  /** The kept words in stack order; a signed stack word is an unsigned address. */
  function Trace(t: seq<SegmentInfo>, q: Query, stack: seq<int32>): (r: seq<uint32>)
    ensures |r| <= |stack|
  {
    if stack == [] then []
    else
      var n := |stack| - 1;
      Trace(t, q, stack[..n]) + (if Keeps(t, q, U32(stack[n])) then [U32(stack[n])] else [])
  }

  /** The table the search sees: none before the construction. */
  function Searched(table: Table): seq<SegmentInfo>
    reads table, table.segList
  {
    if table.constructed == 0 then [] else table.segList[..]
  }

  /** Lines 64-106: look the word up and decide whether it is wanted. */
  method Wanted(table: Table, q: Query, curValue: uint32) returns (keep: bool)
    requires table.Valid()
    ensures keep == Keeps(Searched(table), q, curValue)
  {
    var segidx := table.Find(curValue);
    if segidx < 0 { return false; }
    if q.verbose == 1 { return true; }
    if table.segList[segidx].seg == q.segIndexSearch {
      return CString(q.moduleNameSearch) == CString(table.segList[segidx].moduleName);
    }
    keep := false;
  }

  method StacktraceGlobal(table: Table, stack: seq<int32>, q: Query, stackSize: int, addresses: array<uint32>)
    returns (ret: int, addressNum: nat)
    requires table.Valid() && stackSize <= |stack|
    requires |Trace(Searched(table), q, if stackSize < 0 then [] else stack[..stackSize])| <= addresses.Length
    modifies addresses
    ensures ret == 0
    ensures var r := Trace(Searched(table), q, if stackSize < 0 then [] else stack[..stackSize]);
            addressNum == |r| && addresses[..|r|] == r && addresses[|r|..] == old(addresses[..])[|r|..]
  {
    hide Keeps, FirstHit, Trace, Holds, U32;
    ghost var t, was := Searched(table), addresses[..];
    ghost var scanned := if stackSize < 0 then [] else stack[..stackSize];
    addressNum := 0;
    var i := 0;
    TraceNone(t, q);
    while i < stackSize
      invariant 0 <= i <= |scanned| && table.Valid() && Searched(table) == t
      invariant addressNum == |Trace(t, q, scanned[..i])| <= addresses.Length
      invariant addresses[..addressNum] == Trace(t, q, scanned[..i])
      invariant forall k :: addressNum <= k < addresses.Length ==> addresses[k] == was[k]
    {
      TraceGrows(t, q, scanned, i + 1);
      TraceNext(t, q, scanned, i);
      var curValue := U32(stack[i]);
      var keep := Wanted(table, q, curValue);
      if keep {
        addresses[addressNum] := curValue;
        addressNum := addressNum + 1;
      }
      i := i + 1;
    }
    assert scanned[..i] == scanned;
    ret := 0;
  }

  lemma TraceNext(t: seq<SegmentInfo>, q: Query, stack: seq<int32>, i: nat)
    requires i < |stack|
    ensures Trace(t, q, stack[..i + 1])
         == if Keeps(t, q, U32(stack[i])) then Trace(t, q, stack[..i]) + [U32(stack[i])] else Trace(t, q, stack[..i])
  {
    assert stack[..i + 1][..i] == stack[..i];
  }

  lemma {:induction false} TraceGrows(t: seq<SegmentInfo>, q: Query, stack: seq<int32>, i: nat)
    requires i <= |stack|
    ensures |Trace(t, q, stack[..i])| <= |Trace(t, q, stack)|
    decreases |stack| - i
  {
    if i < |stack| {
      TraceGrows(t, q, stack, i + 1);
      TraceNext(t, q, stack, i);
    } else {
      assert stack[..i] == stack;
    }
  }

  lemma TraceNone(t: seq<SegmentInfo>, q: Query)
    ensures Trace(t, q, []) == []
  {
  }

  /** The scan keeps order: scanning two stretches of stack one after the other is scanning them joined. */
  lemma {:induction false} TraceConcat(t: seq<SegmentInfo>, q: Query, a: seq<int32>, b: seq<int32>)
    ensures Trace(t, q, a + b) == Trace(t, q, a) + Trace(t, q, b)
  {
    hide Keeps, U32, Trace;
    if b == [] {
      assert a + b == a;
      TraceNone(t, q);
    } else {
      var n := |b| - 1;
      TraceConcat(t, q, a, b[..n]);
      TraceNext(t, q, a + b, |a| + n);
      TraceNext(t, q, b, n);
      assert (a + b)[..|a| + n] == a + b[..n];
      assert (a + b)[..|a| + n + 1] == a + b && b[..n + 1] == b;
    }
  }

  /** How often a word occurs on the stack, read as an unsigned address. */
  ghost function Occurrences(stack: seq<int32>, w: uint32): nat {
    if stack == [] then 0
    else Occurrences(stack[..|stack| - 1], w) + (if U32(stack[|stack| - 1]) == w then 1 else 0)
  }

  /** The scan keeps a wanted word as often as it occurs, and drops every other. */
  lemma {:induction false} TraceCounts(t: seq<SegmentInfo>, q: Query, stack: seq<int32>, w: uint32)
    ensures multiset(Trace(t, q, stack))[w] == if Keeps(t, q, w) then Occurrences(stack, w) else 0
  {
    hide Keeps, U32;
    if stack != [] {
      TraceCounts(t, q, stack[..|stack| - 1], w);
    }
  }

  /** In verbose mode a word is kept exactly when some segment the kernel reported contains it, whatever order
      the table is in. */
  lemma VerboseKeepsReported(t: seq<SegmentInfo>, reported: seq<SegmentInfo>, q: Query, w: uint32)
    requires Holds(t, reported) && q.verbose == 1
    ensures Keeps(t, q, w) <==> exists x :: x in reported && Contains(x, w)
  {
    HitIsReported(t, reported, w);
    if Keeps(t, q, w) { assert t[FirstHit(t, w)] in reported; }
  }

  /** The asked-for segment of this module has an address, contains the word, and the module has the asked-for name. */
  ghost predicate AskedFor(m: ModuleInfo, q: Query, w: uint32)
    requires m.Valid()
  {
    && 0 <= q.segIndexSearch < 4 && m.segments[q.segIndexSearch].vaddr != 0
    && CString(q.moduleNameSearch) == CString(m.moduleName)
    && Contains(Slot(m, q.segIndexSearch), w)
  }

  /** Otherwise a kept word lies in the asked-for segment of a reported module of the asked-for name. */
  lemma KeptIsAskedFor(l: ModuleList, t: seq<SegmentInfo>, q: Query, w: uint32)
    requires l.Valid() && Complete(l) && Holds(t, ReportedBy(l)) && q.verbose != 1 && Keeps(t, q, w)
    ensures exists m: nat :: m < |l.modules| && AskedFor(l.modules[m], q, w)
  {
    var x := t[FirstHit(t, w)];
    HitIsReported(t, ReportedBy(l), w);
    ReportedMember(l, |l.modules|, x);
    var m: nat, s: nat :| m < |l.modules| && Written(l.modules[m], s, x);
    PaddedName(l.modules[m].moduleName);
    assert AskedFor(l.modules[m], q, w);
  }

  /** For a word that at most one reported segment contains, those are exactly the words kept. */
  lemma NamedKeepsExactly(l: ModuleList, t: seq<SegmentInfo>, q: Query, w: uint32)
    requires l.Valid() && Complete(l) && Holds(t, ReportedBy(l)) && q.verbose != 1
    requires forall x, y :: x in ReportedBy(l) && y in ReportedBy(l) && Contains(x, w) && Contains(y, w) ==> x == y
    ensures Keeps(t, q, w) <==> exists m: nat :: m < |l.modules| && AskedFor(l.modules[m], q, w)
  {
    hide ReportedBy, Holds;
    if Keeps(t, q, w) {
      KeptIsAskedFor(l, t, q, w);
    }
    forall m: nat | m < |l.modules| && AskedFor(l.modules[m], q, w)
      ensures Keeps(t, q, w)
    {
      var x := Slot(l.modules[m], q.segIndexSearch);
      assert Written(l.modules[m], q.segIndexSearch, x);
      ReportedMember(l, |l.modules|, x);
      CompleteReports(l);
      HitIsReported(t, ReportedBy(l), w);
      PaddedName(l.modules[m].moduleName);
    }
  }

  lemma CompleteReports(l: ModuleList)
    requires l.Valid() && Complete(l)
    ensures ReportedBy(l) == Reported(l, |l.modules|)
  {
  }

  /** The two zero bytes a slot adds make every 28-byte module name a C string of the same characters. */
  lemma {:induction false} PaddedName(name: seq<byte>)
    ensures CString(name + [0, 0]) == CString(name)
  {
    if name != [] {
      PaddedName(name[1..]);
      assert (name + [0, 0])[1..] == name[1..] + [0, 0];
    }
  }
}
