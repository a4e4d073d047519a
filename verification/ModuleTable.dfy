/** The address-to-segment index of driver/mtable.c: built from the kernel's module list, sorted by start
    address, searched and printed. */
module ModuleTable {
  import opened Words
  import opened Memory
  import opened Orders
  import QSort

  type Name = s: seq<byte> | |s| == 28 witness seq(28, _ => 0)

  /** What the kernel reports about one module: a return code, its name and four segments. */
  datatype Segment = Segment(vaddr: uint32, memsz: uint32)
  datatype ModuleInfo = ModuleInfo(ret: int, moduleName: Name, segments: seq<Segment>) {
    ghost predicate Valid() { |segments| == 4 }
  }
  datatype ModuleList = ModuleList(ret: int, modules: seq<ModuleInfo>) {
    ghost predicate Valid() { forall m :: 0 <= m < |modules| ==> modules[m].Valid() }
  }

  datatype SegmentInfo = SegmentInfo(moduleName: seq<byte>, seg: int, start: uint32, end: uint32)

  const ALL_ONES: uint32 := 0xFFFF_FFFF

  /** A slot after memset(-1). */
  const BLANK := SegmentInfo(seq(30, _ => 255), -1, ALL_ONES, ALL_ONES)

  function Blanks(n: nat): (b: seq<SegmentInfo>)
    ensures |b| == n
  {
    seq(n, _ => BLANK)
  }

  /** The slot written for segment s of module m; the end address wraps at 32 bits. */
  function Slot(m: ModuleInfo, s: nat): SegmentInfo
    requires s < |m.segments|
  {
    SegmentInfo(m.moduleName + [0, 0], s, m.segments[s].vaddr, U32(m.segments[s].vaddr + m.segments[s].memsz))
  }

  /** The slots written for the first s segments of a module: those with an address. */
  function SlotsOf(m: ModuleInfo, s: nat): (r: seq<SegmentInfo>)
    requires s <= |m.segments|
    ensures |r| <= s
  {
    if s == 0 then []
    else SlotsOf(m, s - 1) + (if m.segments[s - 1].vaddr == 0 then [] else [Slot(m, s - 1)])
  }

  /** The slots written for the first k modules. */
  function Reported(l: ModuleList, k: nat): (r: seq<SegmentInfo>)
    requires l.Valid() && k <= |l.modules|
    ensures |r| <= 4 * k
  {
    if k == 0 then [] else Reported(l, k - 1) + SlotsOf(l.modules[k - 1], 4)
  }

  /** How many modules are described before the first failure, from module k on. */
  function Described(l: ModuleList, k: nat): (n: nat)
    requires k <= |l.modules|
    ensures k <= n <= |l.modules|
    ensures forall m :: k <= m < n ==> l.modules[m].ret >= 0
    ensures n < |l.modules| ==> l.modules[n].ret < 0
    decreases |l.modules| - k
  {
    if k == |l.modules| || l.modules[k].ret < 0 then k else Described(l, k + 1)
  }

  /** Whether every module is described, the return code, and the slots the construction writes. */
  predicate Complete(l: ModuleList) { l.ret >= 0 && Described(l, 0) == |l.modules| }

  function ReturnCode(l: ModuleList): int {
    if l.ret < 0 then l.ret else if Complete(l) then 0 else l.modules[Described(l, 0)].ret
  }

  function ReportedBy(l: ModuleList): seq<SegmentInfo>
    requires l.Valid()
  {
    if l.ret < 0 then [] else Reported(l, Described(l, 0))
  }

  /** The code is the list's own failure, else the first failure to describe a module, else 0. */
  lemma ReturnCodeExactly(l: ModuleList)
    ensures l.ret < 0 ==> ReturnCode(l) == l.ret
    ensures l.ret >= 0 && (forall m :: 0 <= m < |l.modules| ==> l.modules[m].ret >= 0) ==> ReturnCode(l) == 0
    ensures l.ret >= 0 ==>
              forall m :: 0 <= m < |l.modules| && l.modules[m].ret < 0 ==>
                (forall k :: 0 <= k < m ==> l.modules[k].ret >= 0) ==> ReturnCode(l) == l.modules[m].ret
  {
  }

  /** How many of the first s segments of a module, and of the segments of the first k modules, have an address. */
  function SegmentsOf(m: ModuleInfo, s: nat): nat
    requires s <= |m.segments|
  {
    if s == 0 then 0 else SegmentsOf(m, s - 1) + (if m.segments[s - 1].vaddr != 0 then 1 else 0)
  }

  function Segments(l: ModuleList, k: nat): nat
    requires l.Valid() && k <= |l.modules|
  {
    if k == 0 then 0 else Segments(l, k - 1) + SegmentsOf(l.modules[k - 1], 4)
  }

  lemma {:induction false} SlotsAt(m: ModuleInfo, n: nat, s: nat)
    requires m.Valid() && s < n <= 4 && m.segments[s].vaddr != 0
    ensures |SlotsOf(m, n)| == SegmentsOf(m, n) && SegmentsOf(m, s) < SegmentsOf(m, n)
    ensures SlotsOf(m, n)[SegmentsOf(m, s)] == Slot(m, s)
  {
    SlotsCount(m, s);
    SlotsCount(m, n - 1);
    if s < n - 1 { SlotsAt(m, n - 1, s); }
  }

  lemma {:induction false} SlotsCount(m: ModuleInfo, s: nat)
    requires s <= |m.segments|
    ensures |SlotsOf(m, s)| == SegmentsOf(m, s)
  {
    if s > 0 { SlotsCount(m, s - 1); }
  }

  lemma {:induction false} ReportedCount(l: ModuleList, k: nat)
    requires l.Valid() && k <= |l.modules|
    ensures |Reported(l, k)| == Segments(l, k)
  {
    if k > 0 {
      ReportedCount(l, k - 1);
      SlotsCount(l.modules[k - 1], 4);
    }
  }

  lemma {:induction false} ReportedSlotAt(l: ModuleList, k: nat, m: nat, s: nat)
    requires l.Valid() && m < k <= |l.modules| && s < 4 && l.modules[m].segments[s].vaddr != 0
    ensures var at := Segments(l, m) + SegmentsOf(l.modules[m], s);
            at < |Reported(l, k)| && Reported(l, k)[at] == Slot(l.modules[m], s)
  {
    hide Slot, SlotsOf, SegmentsOf;
    if m < k - 1 {
      ReportedSlotAt(l, k - 1, m, s);
    } else {
      ReportedCount(l, k - 1);
      SlotsAt(l.modules[m], 4, s);
    }
  }

  /** Every segment with an address gets one slot, in the order of the list, with its module's name, its number, and its
      first address and the one after its last. */
  lemma ReportedAt(l: ModuleList, k: nat, m: nat, s: nat)
    requires l.Valid() && m < k <= |l.modules| && s < 4 && l.modules[m].segments[s].vaddr != 0
    ensures |Reported(l, k)| == Segments(l, k)
    ensures var at, g := Segments(l, m) + SegmentsOf(l.modules[m], s), l.modules[m].segments[s];
            && at < |Reported(l, k)|
            && Reported(l, k)[at] == SegmentInfo(l.modules[m].moduleName + [0, 0], s, g.vaddr,
                                                 (g.vaddr + g.memsz) % 0x1_0000_0000)
  {
    hide SlotsOf, SegmentsOf, Reported, Segments;
    ReportedCount(l, k);
    ReportedSlotAt(l, k, m, s);
  }

  /** The table has room: one slot more than it fills when the final sentinel is written, too. */
  predicate Fits(l: ModuleList, slots: nat)
    requires l.Valid()
  {
    |ReportedBy(l)| + (if Complete(l) then 1 else 0) <= slots
  }

  predicate Contains(slot: SegmentInfo, item: uint32) { slot.start <= item < slot.end }

  /** The slot the search loop stops at, or -1. */
  function FirstHit(t: seq<SegmentInfo>, item: uint32): (r: int)
    ensures -1 <= r < |t|
    ensures r >= 0 ==> Contains(t[r], item) && forall s :: 0 <= s < r ==> !Contains(t[s], item)
    ensures r == -1 ==> forall s :: 0 <= s < |t| ==> !Contains(t[s], item)
  {
    if t == [] then -1
    else
      var r := FirstHit(t[..|t| - 1], item);
      if r >= 0 then r else if Contains(t[|t| - 1], item) then |t| - 1 else -1
  }

  function CompareSegments(x: SegmentInfo, y: SegmentInfo): int {
    if x.start < y.start then -1 else if x.start > y.start then 1 else 0
  }

  lemma CompareIsPreorder()
    ensures TotalPreorder(CompareSegments)
  {
  }

  /** A slot the printing loop stops at. */
  predicate Stops(slot: SegmentInfo) { slot.start == ALL_ONES || slot.end == ALL_ONES }

  function Printed(t: seq<SegmentInfo>): (p: seq<SegmentInfo>)
    ensures p <= t
    ensures forall s :: 0 <= s < |p| ==> !Stops(p[s])
    ensures |p| < |t| ==> Stops(t[|p|])
  {
    if t == [] || Stops(t[0]) then [] else [t[0]] + Printed(t[1..])
  }

  /** The table holds exactly the reported slots, in some order, and blanks. */
  ghost predicate Holds(t: seq<SegmentInfo>, reported: seq<SegmentInfo>) {
    |reported| <= |t| && multiset(t) == multiset(reported + Blanks(|t| - |reported|))
  }

  /** A table of n slots that starts with r and is blank after it. */
  function Filled(r: seq<SegmentInfo>, n: nat): (t: seq<SegmentInfo>)
    requires |r| <= n
    ensures |t| == n
  {
    r + Blanks(n - |r|)
  }

  lemma PatchedNone(t: seq<SegmentInfo>, at: nat)
    requires at <= |t|
    ensures Patched(t, at, []) == t
  {
  }

  lemma PatchedSnoc(t: seq<SegmentInfo>, at: nat, x: seq<SegmentInfo>, e: SegmentInfo)
    requires at + |x| < |t|
    ensures Patched(t, at, x)[at + |x| := e] == Patched(t, at, x + [e])
  {
  }

  /** Writing x over the first blanks. */
  lemma OverBlanks(r: seq<SegmentInfo>, x: seq<SegmentInfo>, n: nat)
    requires |r| + |x| <= n
    ensures Patched(Filled(r, n), |r|, x) == Filled(r + x, n)
  {
  }

  /** Where the next slot goes there is still a blank, so the final sentinel changes nothing. */
  lemma LastBlank(r: seq<SegmentInfo>, n: nat)
    requires |r| < n
    ensures Filled(r, n)[|r|] == BLANK && Filled(r, n)[|r| := BLANK] == Filled(r, n)
  {
  }

  lemma FilledHolds(r: seq<SegmentInfo>, n: nat)
    requires |r| <= n
    ensures Holds(Filled(r, n), r)
    ensures Filled([], n) == Blanks(n)
  {
  }

  lemma DescribedNext(l: ModuleList, m: nat)
    requires m < |l.modules|
    ensures Described(l, m) == if l.modules[m].ret < 0 then m else Described(l, m + 1)
  {
  }

  lemma PrintedUnique(t: seq<SegmentInfo>, n: nat)
    requires n <= |t| && forall k :: 0 <= k < n ==> !Stops(t[k])
    requires n < |t| ==> Stops(t[n])
    ensures Printed(t) == t[..n]
  {
  }

  lemma SlotsNext(m: ModuleInfo, s: nat)
    requires s < |m.segments|
    ensures SlotsOf(m, s + 1) == if m.segments[s].vaddr == 0 then SlotsOf(m, s) else SlotsOf(m, s) + [Slot(m, s)]
  {
  }

  lemma {:induction false} SlotsGrow(m: ModuleInfo, s: nat)
    requires m.Valid() && s <= 4
    ensures |SlotsOf(m, s)| <= |SlotsOf(m, 4)|
    decreases 4 - s
  {
    if s < 4 { SlotsGrow(m, s + 1); }
  }

  lemma {:induction false} ReportedGrow(l: ModuleList, k: nat, n: nat)
    requires l.Valid() && k <= n <= |l.modules|
    ensures |Reported(l, k)| <= |Reported(l, n)|
    decreases n - k
  {
    if k < n { ReportedGrow(l, k + 1, n); }
  }

  class Table {
    const segList: array<SegmentInfo>
    var constructed: int
    /** What the kernel reported to the construction that filled the table. */
    ghost var reported: seq<SegmentInfo>

    ghost predicate Valid()
      reads this, segList
    {
      constructed in {0, 1} && (constructed == 1 ==> Holds(segList[..], reported))
    }

    /** Static storage: zeroed, not constructed. */
    constructor (slots: nat)
      ensures Valid() && constructed == 0 && segList.Length == slots && fresh(segList)
    {
      segList := new SegmentInfo[slots](_ => SegmentInfo(seq(30, _ => 0), 0, 0, 0));
      constructed := 0;
      reported := [];
    }

    /** memset(segList, -1, ...). */
    method Clear()
      modifies segList
      ensures segList[..] == Blanks(segList.Length)
    {
      var s := 0;
      while s < segList.Length
        invariant 0 <= s <= segList.Length
        invariant forall k :: 0 <= k < s ==> segList[k] == BLANK
      {
        segList[s] := BLANK;
        s := s + 1;
      }
    }

    /** Lines 67-81: write the slots of one module from index at. */
    method AddModule(m: ModuleInfo, at: nat) returns (next: nat)
      requires m.Valid() && at + |SlotsOf(m, 4)| <= segList.Length
      modifies segList
      ensures next == at + |SlotsOf(m, 4)|
      ensures segList[..] == Patched(old(segList[..]), at, SlotsOf(m, 4))
    {
      hide Patched, Slot;
      next := at;
      var s := 0;
      ghost var t := segList[..];
      PatchedNone(t, at);
      while s < 4
        invariant 0 <= s <= 4 && next == at + |SlotsOf(m, s)| <= segList.Length
        invariant segList[..] == Patched(t, at, SlotsOf(m, s))
      {
        SlotsGrow(m, s + 1);
        SlotsNext(m, s);
        if m.segments[s].vaddr != 0 {
          PatchedSnoc(t, at, SlotsOf(m, s), Slot(m, s));
          segList[next] := Slot(m, s);
          next := next + 1;
        }
        s := s + 1;
      }
    }

    /** Lines 57-88: fill the cleared table, up to the first module the kernel fails to describe. */
    method Fill(l: ModuleList) returns (ret: int)
      requires l.Valid() && l.ret >= 0 && Fits(l, segList.Length) && segList[..] == Filled([], segList.Length)
      modifies segList
      ensures ret == ReturnCode(l)
      ensures |ReportedBy(l)| <= segList.Length && segList[..] == Filled(ReportedBy(l), segList.Length)
    {
      hide Described, Filled, Patched, SlotsOf, Blanks;
      var segInfoIndex, m := 0, 0;
      while m < |l.modules|
        invariant 0 <= m <= Described(l, 0) && segInfoIndex == |Reported(l, m)| <= segList.Length
        invariant segList[..] == Filled(Reported(l, m), segList.Length)
        invariant Described(l, m) == Described(l, 0)
      {
        DescribedNext(l, m);
        if l.modules[m].ret < 0 {
          return l.modules[m].ret;
        }
        ReportedGrow(l, m + 1, Described(l, 0));
        OverBlanks(Reported(l, m), SlotsOf(l.modules[m], 4), segList.Length);
        segInfoIndex := AddModule(l.modules[m], segInfoIndex);
        m := m + 1;
      }
      LastBlank(Reported(l, m), segList.Length);
      segList[segInfoIndex] := segList[segInfoIndex].(start := ALL_ONES, end := ALL_ONES);
      ret := 0;
    }

    method Construct(l: ModuleList) returns (ret: int)
      requires Valid() && l.Valid() && Fits(l, segList.Length)
      modifies this, segList
      ensures Valid() && constructed == 1
      ensures old(constructed) > 0 ==> ret == 0 && reported == old(reported) && segList[..] == old(segList[..])
      ensures old(constructed) == 0 ==> ret == ReturnCode(l) && reported == ReportedBy(l)
                                        && |reported| <= segList.Length
                                        && segList[..] == Filled(reported, segList.Length)
    {
      hide Blanks, Holds, Described, Filled, Fits;
      if constructed > 0 { return 0; }
      constructed := 1;
      Clear();
      FilledHolds([], segList.Length);
      if l.ret < 0 {
        reported := [];
        return l.ret;
      }
      ret := Fill(l);
      reported := ReportedBy(l);
      FilledHolds(reported, segList.Length);
    }

    method Sort() returns (ret: int)
      requires Valid()
      modifies segList
      ensures Valid()
      ensures ret == if constructed == 0 then -1 else 0
      ensures constructed == 0 ==> segList[..] == old(segList[..])
      ensures constructed == 1 ==> SortedRange(segList[..], 0, segList.Length, CompareSegments)
                                   && multiset(segList[..]) == multiset(old(segList[..]))
    {
      if constructed == 0 { return -1; }
      CompareIsPreorder();
      ghost var calls := QSort.QsortImp(segList, 0, segList.Length, CompareSegments);
      ret := 0;
    }

    method Find(item: uint32) returns (r: int)
      requires Valid()
      ensures r == if constructed == 0 then -1 else FirstHit(segList[..], item)
    {
      if constructed == 0 { return -1; }
      var s := 0;
      while s < segList.Length
        invariant 0 <= s <= segList.Length
        invariant forall k :: 0 <= k < s ==> !Contains(segList[k], item)
      {
        if Contains(segList[s], item) { return s; }
        s := s + 1;
      }
      r := -1;
    }

    method Print() returns (ret: int, output: seq<SegmentInfo>)
      requires Valid()
      ensures constructed == 0 ==> ret == -1 && output == []
      ensures constructed == 1 ==> ret == 0 && output == Printed(segList[..])
    {
      output := [];
      if constructed == 0 { return -1, []; }
      var s := 0;
      while s < segList.Length
        invariant 0 <= s <= segList.Length && output == segList[..s]
        invariant forall k :: 0 <= k < s ==> !Stops(segList[k])
      {
        if segList[s].start == ALL_ONES || segList[s].end == ALL_ONES { break; }
        output := output + [segList[s]];
        s := s + 1;
      }
      ret := 0;
      PrintedUnique(segList[..], s);
    }
  }

  // ---------- the index against the module list ----------

  /** Segment s of module m has an address and covers the item; no wrapping in this definition. */
  ghost predicate Covers(l: ModuleList, m: nat, s: nat, item: uint32)
    requires l.Valid()
  {
    m < |l.modules| && s < 4
    && l.modules[m].segments[s].vaddr != 0
    && l.modules[m].segments[s].vaddr <= item < l.modules[m].segments[s].vaddr + l.modules[m].segments[s].memsz
  }

  /** No listed segment reaches past the last 32-bit address. */
  ghost predicate NoWrap(l: ModuleList)
    requires l.Valid()
  {
    forall m, s {:trigger l.modules[m].segments[s]} :: 0 <= m < |l.modules| && 0 <= s < 4 ==>
      l.modules[m].segments[s].vaddr + l.modules[m].segments[s].memsz <= ALL_ONES
  }

  /** A slot covers exactly the addresses of its segment if and only if the segment is empty or does not wrap; one that
      wraps covers no address. */
  lemma WrapExact(m: ModuleInfo, s: nat)
    requires s < |m.segments|
    ensures var g := m.segments[s];
            (forall item: uint32 :: Contains(Slot(m, s), item) <==> g.vaddr <= item < g.vaddr + g.memsz)
            <==> (g.memsz == 0 || g.vaddr + g.memsz <= ALL_ONES)
    ensures m.segments[s].vaddr + m.segments[s].memsz > ALL_ONES ==> forall item: uint32 :: !Contains(Slot(m, s), item)
  {
    var g := m.segments[s];
    if g.memsz > 0 && g.vaddr + g.memsz > ALL_ONES {
      assert !Contains(Slot(m, s), g.vaddr);
    }
  }

  /** Segment s of module m was written as slot x. */
  ghost predicate Written(m: ModuleInfo, s: nat, x: SegmentInfo)
    requires m.Valid()
  {
    s < 4 && m.segments[s].vaddr != 0 && x == Slot(m, s)
  }

  lemma {:induction false} SlotsMember(m: ModuleInfo, s: nat, x: SegmentInfo)
    requires m.Valid() && s <= 4
    ensures x in SlotsOf(m, s) <==> exists j: nat :: j < s && Written(m, j, x)
  {
    hide Slot, SlotsOf, Written;
    if s > 0 {
      SlotsMember(m, s - 1, x);
      SlotsMemberNext(m, s - 1, x);
    } else {
      NoSlots(m);
    }
  }

  lemma SlotsMemberNext(m: ModuleInfo, s: nat, x: SegmentInfo)
    requires m.Valid() && s < 4
    ensures x in SlotsOf(m, s + 1) <==> x in SlotsOf(m, s) || Written(m, s, x)
  {
    hide Slot, SlotsOf;
    SlotsNext(m, s);
  }

  lemma NoSlots(m: ModuleInfo)
    ensures SlotsOf(m, 0) == []
  {
  }

  /** The slots written are those of the segments with an address, of the modules described. */
  lemma {:induction false} ReportedMember(l: ModuleList, k: nat, x: SegmentInfo)
    requires l.Valid() && k <= |l.modules|
    ensures x in Reported(l, k) <==> exists m: nat, s: nat :: m < k && Written(l.modules[m], s, x)
  {
    hide Written;
    if k > 0 {
      ReportedMember(l, k - 1, x);
      SlotsMember(l.modules[k - 1], 4, x);
      assert x in Reported(l, k) <==> x in Reported(l, k - 1) || x in SlotsOf(l.modules[k - 1], 4);
      var last := l.modules[k - 1];
      forall s: nat | Written(last, s, x)
        ensures s < 4
      {
        WrittenBound(last, s, x);
      }
    }
  }

  lemma WrittenBound(m: ModuleInfo, s: nat, x: SegmentInfo)
    requires m.Valid() && Written(m, s, x)
    ensures s < 4
  {
  }

  lemma HoldsMember(t: seq<SegmentInfo>, reported: seq<SegmentInfo>, x: SegmentInfo)
    requires Holds(t, reported)
    ensures x in reported ==> x in t
    ensures x in t ==> x in reported || x == BLANK
  {
    var all := reported + Blanks(|t| - |reported|);
    assert x in t <==> x in multiset(t);
    assert x in all <==> x in multiset(all);
    assert x in Blanks(|t| - |reported|) ==> x == BLANK;
  }

  /** Soundness on every path: whatever the table was filled with before an error, and in whatever order its
      slots are, a hit is a slot the kernel reported, and every reported slot that covers the item makes a hit. */
  lemma HitIsReported(t: seq<SegmentInfo>, reported: seq<SegmentInfo>, item: uint32)
    requires Holds(t, reported)
    ensures FirstHit(t, item) >= 0 ==> t[FirstHit(t, item)] in reported
    ensures FirstHit(t, item) == -1 <==> forall x :: x in reported ==> !Contains(x, item)
  {
    var r := FirstHit(t, item);
    if r >= 0 {
      HoldsMember(t, reported, t[r]);
    } else {
      forall x | x in reported
        ensures !Contains(x, item)
      {
        HoldsMember(t, reported, x);
      }
    }
  }

  /** In a sorted table the first hit starts no later than any other. */
  lemma FirstHitIsLeast(t: seq<SegmentInfo>, item: uint32, x: SegmentInfo)
    requires SortedRange(t, 0, |t|, CompareSegments) && x in t && Contains(x, item)
    ensures FirstHit(t, item) >= 0 && t[FirstHit(t, item)].start <= x.start
  {
    hide SortedRange;
    var r := FirstHit(t, item);
    var s :| 0 <= s < |t| && t[s] == x;
    if r < s { SortedAt(t, r, s); }
  }

  /** What the search is to answer for one item: -1 exactly when no listed segment covers it, and otherwise a covering
      segment of least start. */
  ghost predicate Answers(l: ModuleList, t: seq<SegmentInfo>, item: uint32)
    requires l.Valid()
  {
    var r := FirstHit(t, item);
    && (r == -1 <==> forall m: nat, s: nat :: !Covers(l, m, s, item))
    && (r >= 0 ==> exists m: nat, s: nat :: Covers(l, m, s, item) && t[r] == Slot(l.modules[m], s))
    && (r >= 0 ==> forall m: nat, s: nat :: Covers(l, m, s, item) ==> t[r].start <= l.modules[m].segments[s].vaddr)
  }

  /** The index agrees with the kernel's module list, after a complete construction and a sort. */
  lemma IndexAgrees(l: ModuleList, t: seq<SegmentInfo>, item: uint32)
    requires l.Valid() && Complete(l) && NoWrap(l)
    requires Holds(t, ReportedBy(l)) && SortedRange(t, 0, |t|, CompareSegments)
    ensures Answers(l, t, item)
  {
    hide SortedRange, Holds, Complete, NoWrap, ReportedBy;
    var r := FirstHit(t, item);
    HitIsReported(t, ReportedBy(l), item);
    forall m: nat, s: nat | Covers(l, m, s, item)
      ensures r >= 0 && t[r].start <= l.modules[m].segments[s].vaddr
    {
      var x := Slot(l.modules[m], s);
      CoveredIsReported(l, m, s, item);
      HoldsMember(t, ReportedBy(l), x);
      FirstHitIsLeast(t, item, x);
    }
    if r >= 0 { ReportedIsCovered(l, t[r], item); }
  }

  /** It does so for every address if and only if no segment wraps: a segment that does covers the last address, which
      no slot contains. */
  lemma IndexAgreesExactly(l: ModuleList, t: seq<SegmentInfo>)
    requires l.Valid() && Complete(l)
    requires Holds(t, ReportedBy(l)) && SortedRange(t, 0, |t|, CompareSegments)
    ensures (forall item: uint32 :: Answers(l, t, item)) <==> NoWrap(l)
  {
    hide SortedRange, Holds, Complete, ReportedBy, Answers;
    if NoWrap(l) {
      forall item: uint32
        ensures Answers(l, t, item)
      {
        IndexAgrees(l, t, item);
      }
    } else {
      var m, s :| 0 <= m < |l.modules| && 0 <= s < 4
                  && l.modules[m].segments[s].vaddr + l.modules[m].segments[s].memsz > ALL_ONES;
      MissedAtTheEnd(l, t, m, s);
    }
  }

  lemma MissedAtTheEnd(l: ModuleList, t: seq<SegmentInfo>, m: nat, s: nat)
    requires l.Valid() && m < |l.modules| && s < 4
    requires l.modules[m].segments[s].vaddr + l.modules[m].segments[s].memsz > ALL_ONES
    ensures FirstHit(t, ALL_ONES) == -1 && !Answers(l, t, ALL_ONES)
  {
    assert Covers(l, m, s, ALL_ONES);
  }

  function OneModule(name: Name, a: Segment, b: Segment): (l: ModuleList)
    ensures l.Valid() && Complete(l)
  {
    ModuleList(0, [ModuleInfo(0, name, [a, b, Segment(0, 0), Segment(0, 0)])])
  }

  /** The table of such a list, when both segments have an address and come in order: it is sorted as it is. */
  lemma OneModuleTable(name: Name, a: Segment, b: Segment, n: nat)
    requires 0 < a.vaddr <= b.vaddr && 2 <= n
    ensures var l := OneModule(name, a, b);
            && ReportedBy(l) == [Slot(l.modules[0], 0), Slot(l.modules[0], 1)]
            && Fits(l, n + 1) && Holds(Filled(ReportedBy(l), n), ReportedBy(l))
            && SortedRange(Filled(ReportedBy(l), n), 0, n, CompareSegments)
  {
    hide Holds, SortedRange, Filled, ReportedBy;
    var l := OneModule(name, a, b);
    OneModuleReports(name, a, b);
    PairSorted(Slot(l.modules[0], 0), Slot(l.modules[0], 1), n);
    FilledHolds(ReportedBy(l), n);
  }

  lemma OneModuleReports(name: Name, a: Segment, b: Segment)
    requires 0 < a.vaddr && 0 < b.vaddr
    ensures var l := OneModule(name, a, b);
            ReportedBy(l) == [Slot(l.modules[0], 0), Slot(l.modules[0], 1)]
  {
    hide Slot;
    var l := OneModule(name, a, b);
    var m := l.modules[0];
    SlotsNext(m, 0);
    SlotsNext(m, 1);
    SlotsNext(m, 2);
    SlotsNext(m, 3);
    assert SlotsOf(m, 0) == [] && SlotsOf(m, 4) == [Slot(m, 0), Slot(m, 1)];
    assert Described(l, 0) == 1 && Reported(l, 0) == [] && Reported(l, 1) == SlotsOf(m, 4);
  }

  lemma PairSorted(x: SegmentInfo, y: SegmentInfo, n: nat)
    requires x.start <= y.start && 2 <= n
    ensures SortedRange(Filled([x, y], n), 0, n, CompareSegments)
  {
  }

  /** The condition is not idle: a segment of 0x2000 bytes at 0xFFFFF000 is listed, and no address of it is found. */
  lemma WrappedSegmentIsLost(name: Name, n: nat, item: uint32)
    requires 2 <= n && item >= 0xFFFF_F000
    ensures var l := OneModule(name, Segment(0x8100_0000, 0x1000), Segment(0xFFFF_F000, 0x2000));
            && |ReportedBy(l)| == 2 && SortedRange(Filled(ReportedBy(l), n), 0, n, CompareSegments)
            && Covers(l, 0, 1, item) && FirstHit(Filled(ReportedBy(l), n), item) == -1
  {
    hide SortedRange;
    var a, b := Segment(0x8100_0000, 0x1000), Segment(0xFFFF_F000, 0x2000);
    var l := OneModule(name, a, b);
    OneModuleTable(name, a, b, n);
    HitIsReported(Filled(ReportedBy(l), n), ReportedBy(l), item);
  }

  /** What module_start does with a fresh table. */
  method BuildIndex(table: Table, l: ModuleList)
    requires table.Valid() && table.constructed == 0 && l.Valid() && Fits(l, table.segList.Length)
    modifies table, table.segList
    ensures table.Valid() && table.constructed == 1 && table.reported == ReportedBy(l)
    ensures SortedRange(table.segList[..], 0, table.segList.Length, CompareSegments)
    ensures Complete(l) ==> ((forall item: uint32 :: Answers(l, table.segList[..], item)) <==> NoWrap(l))
  {
    hide Fits, ReportedBy, Filled, Holds, SortedRange, Answers, Complete, NoWrap;
    var ret := table.Construct(l);
    ret := table.Sort();
    if Complete(l) { IndexAgreesExactly(l, table.segList[..]); }
  }

  lemma CoveredIsReported(l: ModuleList, m: nat, s: nat, item: uint32)
    requires l.Valid() && Complete(l) && NoWrap(l) && Covers(l, m, s, item)
    ensures Slot(l.modules[m], s) in ReportedBy(l) && Contains(Slot(l.modules[m], s), item)
  {
    ReportedMember(l, |l.modules|, Slot(l.modules[m], s));
    assert Written(l.modules[m], s, Slot(l.modules[m], s));
    assert l.modules[m].segments[s].vaddr + l.modules[m].segments[s].memsz <= ALL_ONES;
  }

  lemma ReportedIsCovered(l: ModuleList, x: SegmentInfo, item: uint32)
    requires l.Valid() && Complete(l) && NoWrap(l) && x in ReportedBy(l) && Contains(x, item)
    ensures exists m: nat, s: nat :: Covers(l, m, s, item) && x == Slot(l.modules[m], s)
  {
    hide Written, NoWrap;
    ReportedMember(l, |l.modules|, x);
    var m: nat, s: nat :| m < |l.modules| && Written(l.modules[m], s, x);
    WrittenCovers(l, m, s, x, item);
  }

  lemma WrittenCovers(l: ModuleList, m: nat, s: nat, x: SegmentInfo, item: uint32)
    requires l.Valid() && NoWrap(l) && m < |l.modules| && Written(l.modules[m], s, x) && Contains(x, item)
    ensures Covers(l, m, s, item) && x == Slot(l.modules[m], s)
  {
    assert l.modules[m].segments[s].vaddr + l.modules[m].segments[s].memsz <= ALL_ONES;
  }

  /** If at most one reported slot covers the item, the order of the table does not matter: a sorted and an
      unsorted table of the same report answer with the same segment. */
  lemma OrderIrrelevant(t: seq<SegmentInfo>, u: seq<SegmentInfo>, reported: seq<SegmentInfo>, item: uint32)
    requires Holds(t, reported) && Holds(u, reported)
    requires forall x, y :: x in reported && y in reported && Contains(x, item) && Contains(y, item) ==> x == y
    ensures (FirstHit(t, item) == -1) == (FirstHit(u, item) == -1)
    ensures FirstHit(t, item) >= 0 ==> t[FirstHit(t, item)] == u[FirstHit(u, item)]
  {
    HitIsReported(t, reported, item);
    HitIsReported(u, reported, item);
  }

  // ---------- printing ----------

  /** In the sorted table everything from the first stopping slot on is blank. */
  lemma BlankTail(t: seq<SegmentInfo>, reported: seq<SegmentInfo>)
    requires Holds(t, reported) && SortedRange(t, 0, |t|, CompareSegments)
    requires forall x :: x in reported ==> !Stops(x)
    ensures t == Printed(t) + Blanks(|t| - |Printed(t)|)
  {
    hide Holds, Printed, SortedRange;
    var p := Printed(t);
    forall s | |p| <= s < |t|
      ensures t[s] == BLANK
    {
      StopIsBlank(t, reported, |p|);
      SortedAt(t, |p|, s);
      StopIsBlank(t, reported, s);
    }
  }

  lemma SortedAt(t: seq<SegmentInfo>, i: nat, j: nat)
    requires i <= j < |t| && SortedRange(t, 0, |t|, CompareSegments)
    ensures t[i].start <= t[j].start
  {
    assert i == j || CompareSegments(t[i], t[j]) <= 0;
  }

  lemma StopIsBlank(t: seq<SegmentInfo>, reported: seq<SegmentInfo>, s: nat)
    requires Holds(t, reported) && s < |t|
    requires forall x :: x in reported ==> !Stops(x)
    ensures Stops(t[s]) ==> t[s] == BLANK
  {
    hide Holds;
    HoldsMember(t, reported, t[s]);
    assert t[s] in t;
  }

  /** Printing the sorted table emits reported segments in ascending order; and each of them exactly as often as it was
      reported, and nothing else, if and only if every one starts and ends below the all-ones address. */
  lemma PrintsExactly(t: seq<SegmentInfo>, reported: seq<SegmentInfo>)
    requires Holds(t, reported) && SortedRange(t, 0, |t|, CompareSegments)
    ensures SortedRange(Printed(t), 0, |Printed(t)|, CompareSegments) && forall x :: x in Printed(t) ==> x in reported
    ensures multiset(Printed(t)) == multiset(reported)
        <==> forall x :: x in reported ==> x.start != 0xFFFF_FFFF && x.end != 0xFFFF_FFFF
  {
    StopsExactly(reported);
    hide *;
    var p := Printed(t);
    SortedPrefix(t, p);
    BlankStops();
    forall x | x in p
      ensures x in reported
    {
      HoldsMember(t, reported, x);
    }
    if forall x :: x in reported ==> !Stops(x) {
      BlankTail(t, reported);
      HoldsPadded(t, reported);
      CancelBlanks(p, |t| - |p|, reported, |t| - |reported|);
    } else {
      var x :| x in reported && Stops(x);
      assert x in multiset(reported) && x !in multiset(p);
    }
  }

  lemma StopsExactly(reported: seq<SegmentInfo>)
    ensures forall x :: x in reported ==> (Stops(x) <==> x.start == 0xFFFF_FFFF || x.end == 0xFFFF_FFFF)
  {
  }

  lemma HoldsPadded(t: seq<SegmentInfo>, reported: seq<SegmentInfo>)
    requires Holds(t, reported)
    ensures |reported| <= |t| && multiset(t) == multiset(reported + Blanks(|t| - |reported|))
  {
  }

  lemma BlankStops()
    ensures Stops(BLANK)
  {
  }

  lemma SortedPrefix(t: seq<SegmentInfo>, p: seq<SegmentInfo>)
    requires SortedRange(t, 0, |t|, CompareSegments) && p <= t
    ensures SortedRange(p, 0, |p|, CompareSegments)
  {
    assert forall i :: 0 <= i < |p| ==> p[i] == t[i];
  }

  /** Two blank-free lists that agree once padded with blanks hold the same elements. */
  lemma CancelBlanks(p: seq<SegmentInfo>, n: nat, q: seq<SegmentInfo>, k: nat)
    requires multiset(p + Blanks(n)) == multiset(q + Blanks(k)) && BLANK !in p && BLANK !in q
    ensures multiset(p) == multiset(q)
  {
    var b, c := multiset(Blanks(n)), multiset(Blanks(k));
    BlanksCount(n);
    BlanksCount(k);
    assert multiset(p + Blanks(n)) == multiset(p) + b && multiset(q + Blanks(k)) == multiset(q) + c;
    assert multiset(p)[BLANK] == 0 && multiset(q)[BLANK] == 0;
    assert (multiset(p) + b)[BLANK] == n && (multiset(q) + c)[BLANK] == k;
    assert n == k;
    assert multiset(p) == (multiset(p) + b) - b;
  }

  lemma {:induction false} BlanksCount(n: nat)
    ensures multiset(Blanks(n))[BLANK] == n
  {
    if n > 0 {
      BlanksCount(n - 1);
      assert Blanks(n) == Blanks(n - 1) + [BLANK];
    } else {
      assert Blanks(0) == [];
    }
  }

  /** The condition is not idle either: of two disjoint segments, the last of which ends at 0xFFFFFFFF, only the first
      is printed. */
  lemma PrintStopsShort(name: Name, n: nat)
    requires 2 <= n
    ensures var l := OneModule(name, Segment(0x8100_0000, 0x1000), Segment(0xFFFF_F000, 0xFFF));
            && |ReportedBy(l)| == 2 && Holds(Filled(ReportedBy(l), n), ReportedBy(l))
            && SortedRange(Filled(ReportedBy(l), n), 0, n, CompareSegments)
            && Printed(Filled(ReportedBy(l), n)) == ReportedBy(l)[..1]
  {
    hide SortedRange, Holds;
    var a, b := Segment(0x8100_0000, 0x1000), Segment(0xFFFF_F000, 0xFFF);
    OneModuleTable(name, a, b, n);
    PrintedUnique(Filled(ReportedBy(OneModule(name, a, b)), n), 1);
  }
}
