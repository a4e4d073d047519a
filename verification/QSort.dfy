/** The Bentley-McIlroy quicksort of driver/qsort.c, in place on an array. Pointers into the element
    array are indices; the byte-level block swap underneath is the subject of module BlockSwap. */
module QSort {
  import opened Orders
  import opened BlockSwap

  /** Twice the number of comparator calls a sort of n elements can make: n(n + 25) / 2 calls, which is within
      n^2 + 12n for every n > 0. */
  function TwiceCallBound(n: nat): nat { n * n + 25 * n }

  // ---------- pivot choice ----------

  /** The index med3 picks among three. */
  function Med3<T>(s: seq<T>, i: nat, j: nat, k: nat, cmp: (T, T) -> int): (m: nat)
    requires i < |s| && j < |s| && k < |s|
    ensures m == i || m == j || m == k
  {
    if cmp(s[i], s[j]) < 0 then
      if cmp(s[j], s[k]) < 0 then j else if cmp(s[i], s[k]) < 0 then k else i
    else
      if cmp(s[j], s[k]) > 0 then j else if cmp(s[i], s[k]) < 0 then i else k
  }

  ghost predicate Between<T>(cmp: (T, T) -> int, x: T, m: T, y: T) {
    (cmp(x, m) <= 0 && cmp(m, y) <= 0) || (cmp(y, m) <= 0 && cmp(m, x) <= 0)
  }

  /** med3 returns a median: it lies between the other two. */
  lemma Med3IsMedian<T(!new)>(s: seq<T>, i: nat, j: nat, k: nat, cmp: (T, T) -> int)
    requires i < |s| && j < |s| && k < |s|
    requires TotalPreorder(cmp)
    ensures var m := Med3(s, i, j, k, cmp);
            || (m == i && Between(cmp, s[j], s[m], s[k]))
            || (m == j && Between(cmp, s[i], s[m], s[k]))
            || (m == k && Between(cmp, s[i], s[m], s[j]))
  {
    assert forall x, y :: cmp(x, y) < 0 <==> cmp(y, x) > 0;
  }

  /** Lines 104-115: the middle element, its median with both ends, or the pseudo-median of nine. */
  function PivotIndex<T>(s: seq<T>, lo: nat, n: nat, cmp: (T, T) -> int): (pm: nat)
    requires 7 <= n && lo + n <= |s|
    ensures lo <= pm < lo + n
  {
    var pm := lo + n / 2;
    if n <= 7 then pm
    else
      var pl, pn := lo, lo + (n - 1);
      if n <= 40 then Med3(s, pl, pm, pn, cmp)
      else
        var d := n / 8;
        Med3(s,
             Med3(s, pl, pl + d, pl + 2 * d, cmp),
             Med3(s, pm - d, pm, pm + d, cmp),
             Med3(s, pn - 2 * d, pn - d, pn, cmp),
             cmp)
  }

  /** x, y and z are i, j and k in some order. */
  predicate Trio(x: nat, y: nat, z: nat, i: nat, j: nat, k: nat) {
    x != y && y != z && x != z && x in {i, j, k} && y in {i, j, k} && z in {i, j, k}
  }

  /** The three of a median-of-three, in order around its choice. */
  lemma Med3Order<T(!new)>(s: seq<T>, i: nat, j: nat, k: nat, cmp: (T, T) -> int) returns (l: nat, h: nat)
    requires i < |s| && j < |s| && k < |s| && i != j && j != k && i != k && TotalPreorder(cmp)
    ensures var m := Med3(s, i, j, k, cmp);
            && Trio(l, m, h, i, j, k)
            && cmp(s[l], s[m]) <= 0 && cmp(s[m], s[h]) <= 0
  {
    Med3IsMedian(s, i, j, k, cmp);
    hide TotalPreorder;
    var m := Med3(s, i, j, k, cmp);
    var x, y := if m == i then j else i, if m == k then j else k;
    assert Between(cmp, s[x], s[m], s[y]);
    if cmp(s[x], s[m]) <= 0 && cmp(s[m], s[y]) <= 0 {
      l, h := x, y;
    } else {
      l, h := y, x;
    }
  }

  /** Three samples whose chosen element has one of them on either side, from disjoint stretches. */
  datatype Sample = Sample(low: nat, choice: nat, high: nat) {
    ghost predicate Ordered<T>(s: seq<T>, cmp: (T, T) -> int, from: nat, to: nat) {
      && from <= low < to <= |s| && from <= choice < to && from <= high < to
      && low != choice && choice != high && low != high
      && cmp(s[low], s[choice]) <= 0 && cmp(s[choice], s[high]) <= 0
    }
  }

  predicate Apart(x: Sample, y: Sample) {
    x.low !in {y.low, y.choice, y.high} && x.choice !in {y.low, y.choice, y.high}
    && x.high !in {y.low, y.choice, y.high}
  }

  lemma OrderedApart<T>(s: seq<T>, cmp: (T, T) -> int, p: nat, q: nat, r: nat, t: nat, x: Sample, y: Sample)
    requires q <= r && x.Ordered(s, cmp, p, q) && y.Ordered(s, cmp, r, t)
    ensures Apart(x, y) && Apart(y, x)
  {
  }

  lemma SampleOrdered<T(!new)>(s: seq<T>, from: nat, d: nat, to: nat, cmp: (T, T) -> int) returns (x: Sample)
    requires 0 < d && from + 2 * d < to <= |s| && TotalPreorder(cmp)
    ensures x.choice == Med3(s, from, from + d, from + 2 * d, cmp) && x.Ordered(s, cmp, from, to)
  {
    hide TotalPreorder, Med3;
    var l, h := Med3Order(s, from, from + d, from + 2 * d, cmp);
    x := Sample(l, Med3(s, from, from + d, from + 2 * d, cmp), h);
  }

  /** The pivot p among nine samples: the lower of the three, and the low end of its own, are not greater; the higher
      one and the high end of its own are not less. */
  ghost predicate Central<T>(s: seq<T>, cmp: (T, T) -> int, lo: nat, hi: nat, p: nat, x: Sample, y: Sample, z: Sample) {
    && y.choice == p && Apart(x, y) && Apart(y, z) && Apart(x, z)
    && x.Ordered(s, cmp, lo, hi) && y.Ordered(s, cmp, lo, hi) && z.Ordered(s, cmp, lo, hi)
    && cmp(s[x.low], s[p]) <= 0 && cmp(s[x.choice], s[p]) <= 0 && cmp(s[y.low], s[p]) <= 0
    && cmp(s[p], s[y.high]) <= 0 && cmp(s[p], s[z.choice]) <= 0 && cmp(s[p], s[z.high]) <= 0
  }

  /** What the ninther buys: of the elements of the range other than the pivot, at least three are not greater and at
      least three not less. */
  lemma NintherIsCentral<T(!new)>(s: seq<T>, lo: nat, n: nat, cmp: (T, T) -> int)
    returns (x: Sample, y: Sample, z: Sample)
    requires 40 < n && lo + n <= |s| && TotalPreorder(cmp)
    ensures Central(s, cmp, lo, lo + n, PivotIndex(s, lo, n, cmp), x, y, z)
  {
    hide Med3, TotalPreorder, Central, Apart;
    var d, mid, last := n / 8, lo + n / 2, lo + (n - 1);
    var a := SampleOrdered(s, lo, d, mid - d, cmp);
    var b := SampleOrdered(s, mid - d, d, last - 2 * d, cmp);
    var c := SampleOrdered(s, last - 2 * d, d, last + 1, cmp);
    NintherSamples(s, lo, n, cmp);
    x, y, z := CentralOf(s, cmp, lo, mid - d, last - 2 * d, last + 1, a, b, c);
  }

  /** PivotIndex beyond 40 elements, with the samples named by where they start. */
  lemma NintherSamples<T>(s: seq<T>, lo: nat, n: nat, cmp: (T, T) -> int)
    requires 40 < n && lo + n <= |s|
    ensures var d, from, last := n / 8, lo + n / 2 - n / 8, lo + (n - 1) - 2 * (n / 8);
            PivotIndex(s, lo, n, cmp)
            == Med3(s, Med3(s, lo, lo + d, lo + 2 * d, cmp), Med3(s, from, from + d, from + 2 * d, cmp),
                    Med3(s, last, last + d, last + 2 * d, cmp), cmp)
  {
    hide Med3;
    var d, from, last := n / 8, lo + n / 2 - n / 8, lo + (n - 1) - 2 * (n / 8);
    assert from + d == lo + n / 2 && from + 2 * d == lo + n / 2 + d;
    assert last + d == lo + (n - 1) - d && last + 2 * d == lo + (n - 1);
  }

  /** The sample of three that chose index i. */
  function Pick(a: Sample, b: Sample, c: Sample, i: nat): Sample {
    if i == a.choice then a else if i == b.choice then b else c
  }

  lemma CentralOf<T(!new)>(s: seq<T>, cmp: (T, T) -> int, p: nat, q: nat, r: nat, t: nat, a: Sample, b: Sample,
                           c: Sample)
    returns (x: Sample, y: Sample, z: Sample)
    requires TotalPreorder(cmp) && p <= q <= r <= t <= |s|
    requires a.Ordered(s, cmp, p, q) && b.Ordered(s, cmp, q, r) && c.Ordered(s, cmp, r, t)
    ensures Central(s, cmp, p, t, Med3(s, a.choice, b.choice, c.choice, cmp), x, y, z)
  {
    OrderedApart(s, cmp, p, q, q, r, a, b);
    OrderedApart(s, cmp, q, r, r, t, b, c);
    OrderedApart(s, cmp, p, q, r, t, a, c);
    OrderedWiden(s, cmp, p, q, p, t, a);
    OrderedWiden(s, cmp, q, r, p, t, b);
    OrderedWiden(s, cmp, r, t, p, t, c);
    x, y, z := CentralAmong(s, cmp, p, t, a, b, c);
  }

  lemma OrderedWiden<T>(s: seq<T>, cmp: (T, T) -> int, p: nat, q: nat, from: nat, to: nat, x: Sample)
    requires x.Ordered(s, cmp, p, q) && from <= p && q <= to <= |s|
    ensures x.Ordered(s, cmp, from, to) && x.choice < |s|
  {
  }

  lemma CentralAmong<T(!new)>(s: seq<T>, cmp: (T, T) -> int, p: nat, t: nat, a: Sample, b: Sample, c: Sample)
    returns (x: Sample, y: Sample, z: Sample)
    requires TotalPreorder(cmp) && Apart(a, b) && Apart(b, a) && Apart(b, c) && Apart(c, b) && Apart(a, c)
             && Apart(c, a)
    requires a.Ordered(s, cmp, p, t) && b.Ordered(s, cmp, p, t) && c.Ordered(s, cmp, p, t)
    ensures Central(s, cmp, p, t, Med3(s, a.choice, b.choice, c.choice, cmp), x, y, z)
  {
    hide TotalPreorder, Med3, Central, Pick;
    var m := Med3(s, a.choice, b.choice, c.choice, cmp);
    var l, h := Med3Order(s, a.choice, b.choice, c.choice, cmp);
    PickIs(a, b, c, l);
    PickIs(a, b, c, m);
    PickIs(a, b, c, h);
    x, y, z := Pick(a, b, c, l), Pick(a, b, c, m), Pick(a, b, c, h);
    CentralIn(s, cmp, p, t, x, y, z);
  }

  lemma PickIs(a: Sample, b: Sample, c: Sample, i: nat)
    requires i in {a.choice, b.choice, c.choice}
    ensures Pick(a, b, c, i) in {a, b, c} && Pick(a, b, c, i).choice == i
  {
  }

  lemma CentralIn<T(!new)>(s: seq<T>, cmp: (T, T) -> int, p: nat, t: nat, x: Sample, y: Sample, z: Sample)
    requires TotalPreorder(cmp) && Apart(x, y) && Apart(y, z) && Apart(x, z)
    requires x.Ordered(s, cmp, p, t) && y.Ordered(s, cmp, p, t) && z.Ordered(s, cmp, p, t)
    requires cmp(s[x.choice], s[y.choice]) <= 0 && cmp(s[y.choice], s[z.choice]) <= 0
    ensures Central(s, cmp, p, t, y.choice, x, y, z)
  {
    hide TotalPreorder;
    Trans(cmp, s[x.low], s[x.choice], s[y.choice]);
    Trans(cmp, s[y.choice], s[z.choice], s[z.high]);
  }

  // ---------- insertion sort ----------

  /** Lines 97-103 and 145-149: insertion by adjacent swaps. */
  method InsertionSort<T(!new)>(arr: array<T>, lo: nat, n: nat, cmp: (T, T) -> int) returns (ghost calls: nat)
    requires lo + n <= arr.Length
    modifies arr
    ensures Permutes(old(arr[..]), arr[..], lo, lo + n)
    ensures TotalPreorder(cmp) ==> SortedRange(arr[..], lo, lo + n, cmp)
    ensures if n == 0 then calls == 0 else 2 * calls <= n * (n - 1)
  {
    hide *;
    calls := 0;
    var pm := lo + 1;
    ghost var s := arr[..];
    SortedSmall(s, lo, if n == 0 then lo else pm, cmp);
    PermutesWiden(s, s, lo, if n == 0 then lo else pm, lo, lo + n);
    while pm < lo + n
      invariant lo + 1 <= pm
      invariant n >= 1 ==> pm <= lo + n
      invariant n == 0 ==> calls == 0
      invariant Permutes(s, arr[..], lo, lo + n)
      invariant TotalPreorder(cmp) ==> SortedRange(arr[..], lo, if n == 0 then lo else pm, cmp)
      invariant 2 * calls <= (pm - lo) * (pm - lo - 1)
    {
      ghost var s0 := arr[..];
      ghost var used := InsertOne(arr, lo, pm, cmp);
      PermutesWiden(s0, arr[..], lo, pm + 1, lo, lo + n);
      PermutesTrans(s, s0, arr[..], lo, lo + n);
      CallsStep(calls, used, pm - lo);
      calls := calls + used;
      pm := pm + 1;
    }
  }

  lemma CallsStep(calls: nat, used: nat, m: nat)
    requires 2 * calls <= m * (m - 1) && used <= m
    ensures 2 * (calls + used) <= (m + 1) * m
  {
  }

  /** [lo, hi) is sorted except that element p may be out of place. */
  ghost predicate SortedBut<T>(s: seq<T>, lo: nat, hi: nat, p: nat, cmp: (T, T) -> int)
    requires hi <= |s|
  {
    forall i, j :: lo <= i < j < hi && j != p ==> cmp(s[i], s[j]) <= 0
  }

  /** State of the sinking loop started on s: element p is on its way down. */
  ghost predicate Sinking<T(!new)>(s: seq<T>, t: seq<T>, lo: nat, hi: nat, p: nat, cmp: (T, T) -> int) {
    && lo <= p < hi <= |s| == |t|
    && Permutes(s, t, lo, hi)
    && (TotalPreorder(cmp) ==> SortedBut(t, lo, hi, p, cmp))
  }

  lemma SinkStart<T(!new)>(s: seq<T>, lo: nat, p: nat, cmp: (T, T) -> int)
    requires lo <= p < |s| && (TotalPreorder(cmp) ==> SortedRange(s, lo, p, cmp))
    ensures Sinking(s, s, lo, p + 1, p, cmp)
  {
  }

  lemma SortedButStep<T>(t: seq<T>, lo: nat, hi: nat, p: nat, cmp: (T, T) -> int)
    requires lo < p < hi <= |t| && SortedBut(t, lo, hi, p, cmp) && cmp(t[p], t[p - 1]) <= 0
    ensures SortedBut(Exchange(t, p, p - 1), lo, hi, p - 1, cmp)
  {
    var u := Exchange(t, p, p - 1);
    forall i, j | lo <= i < j < hi && j != p - 1
      ensures cmp(u[i], u[j]) <= 0
    {
      if j == p {
        assert u[j] == t[p - 1] && (i < p - 1 ==> u[i] == t[i]);
      } else {
        assert u[j] == t[j] && u[i] == if i == p then t[p - 1] else if i == p - 1 then t[p] else t[i];
      }
    }
  }

  lemma SinkStep<T(!new)>(s: seq<T>, t: seq<T>, lo: nat, hi: nat, p: nat, cmp: (T, T) -> int)
    requires Sinking(s, t, lo, hi, p, cmp) && lo < p < |t| && cmp(t[p - 1], t[p]) > 0
    ensures Sinking(s, Exchange(t, p, p - 1), lo, hi, p - 1, cmp)
  {
    hide TotalPreorder, Permutes, Exchange, SortedBut;
    ExchangePermutes(t, p, p - 1, lo, hi);
    PermutesTrans(s, t, Exchange(t, p, p - 1), lo, hi);
    if TotalPreorder(cmp) {
      Flip(cmp, t[p - 1], t[p]);
      SortedButStep(t, lo, hi, p, cmp);
    }
  }

  lemma SinkDone<T(!new)>(s: seq<T>, t: seq<T>, lo: nat, hi: nat, p: nat, cmp: (T, T) -> int)
    requires Sinking(s, t, lo, hi, p, cmp) && |t| == |s| && (p == lo || cmp(t[p - 1], t[p]) <= 0)
    ensures hi <= |t| && Permutes(s, t, lo, hi)
    ensures TotalPreorder(cmp) ==> SortedRange(t, lo, hi, cmp)
  {
    hide TotalPreorder;
    forall i | TotalPreorder(cmp) && lo <= i < p
      ensures cmp(t[i], t[p]) <= 0
    {
      if i < p - 1 { Trans(cmp, t[i], t[p - 1], t[p]); }
    }
  }

  /** The inner loop: sink element pm into the sorted range before it. */
  method InsertOne<T(!new)>(arr: array<T>, lo: nat, pm: nat, cmp: (T, T) -> int) returns (ghost calls: nat)
    requires lo < pm < arr.Length
    requires TotalPreorder(cmp) ==> SortedRange(arr[..], lo, pm, cmp)
    modifies arr
    ensures Permutes(old(arr[..]), arr[..], lo, pm + 1)
    ensures TotalPreorder(cmp) ==> SortedRange(arr[..], lo, pm + 1, cmp)
    ensures calls <= pm - lo
  {
    hide *;
    calls := 0;
    var pl := pm;
    ghost var s := arr[..];
    SinkStart(s, lo, pm, cmp);
    while pl > lo
      invariant lo <= pl <= pm
      invariant Sinking(s, arr[..], lo, pm + 1, pl, cmp)
      invariant calls == pm - pl
    {
      calls := calls + 1;
      if cmp(arr[pl - 1], arr[pl]) <= 0 { break; }
      SinkStep(s, arr[..], lo, pm + 1, pl, cmp);
      Swap(arr, pl, pl - 1);
      pl := pl - 1;
    }
    SinkDone(s, arr[..], lo, pm + 1, pl, cmp);
  }

  // ---------- the fat partition ----------

  /** The swap macro, on whole elements. */
  method Swap<T>(arr: array<T>, i: nat, j: nat)
    requires i < arr.Length && j < arr.Length
    modifies arr
    ensures arr[..] == Exchange(old(arr[..]), i, j)
  {
    arr[i], arr[j] := arr[j], arr[i];
  }

  /** equal / less / unscanned / greater / equal around the pivot at lo. */
  ghost predicate Layout<T>(s: seq<T>, lo: nat, hi: nat, pa: nat, pb: nat, pc: nat, pd: nat, cmp: (T, T) -> int) {
    && lo < pa <= pb <= pc + 1 && pc <= pd < hi <= |s|
    && (forall k :: lo < k < pa ==> cmp(s[k], s[lo]) == 0)
    && (forall k :: pa <= k < pb ==> cmp(s[k], s[lo]) < 0)
    && (forall k :: pc < k <= pd ==> cmp(s[k], s[lo]) > 0)
    && (forall k :: pd < k < hi ==> cmp(s[k], s[lo]) == 0)
  }

  /** The pass would find nothing to move: no element equals the pivot at lo, and the smaller ones come first. */
  ghost predicate AlreadySplit<T>(s: seq<T>, lo: nat, hi: nat, cmp: (T, T) -> int)
    requires lo < hi <= |s|
  {
    && (forall k :: lo < k < hi ==> cmp(s[k], s[lo]) != 0)
    && (forall i, j :: lo < i < j < hi && cmp(s[j], s[lo]) < 0 ==> cmp(s[i], s[lo]) < 0)
  }

  /** What the scan has established after any number of its steps, started on s0. */
  ghost predicate Scanning<T>(s0: seq<T>, s: seq<T>, lo: nat, hi: nat, pa: nat, pb: nat, pc: nat, pd: nat,
                              swapped: bool, cmp: (T, T) -> int)
  {
    && Permutes(s0, s, lo, hi)
    && Layout(s, lo, hi, pa, pb, pc, pd, cmp)
    && s[lo] == s0[lo]
    && (swapped ==> !AlreadySplit(s0, lo, hi, cmp))
    && (!swapped ==> s == s0 && pa == lo + 1 && pd == hi - 1)
  }

  /** One step of the upward scan on an element that is not greater than the pivot. */
  lemma ScanUp<T>(s0: seq<T>, s: seq<T>, lo: nat, hi: nat, pa: nat, pb: nat, pc: nat, pd: nat,
                  swapped: bool, cmp: (T, T) -> int)
    requires Scanning(s0, s, lo, hi, pa, pb, pc, pd, swapped, cmp) && pb <= pc
    ensures cmp(s[pb], s[lo]) < 0 ==> Scanning(s0, s, lo, hi, pa, pb + 1, pc, pd, swapped, cmp)
    ensures cmp(s[pb], s[lo]) == 0 ==> Scanning(s0, Exchange(s, pa, pb), lo, hi, pa + 1, pb + 1, pc, pd, true, cmp)
  {
    ExchangePermutes(s, pa, pb, lo, hi);
  }

  /** One step of the downward scan on an element that is not less than the pivot. */
  lemma ScanDown<T>(s0: seq<T>, s: seq<T>, lo: nat, hi: nat, pa: nat, pb: nat, pc: nat, pd: nat,
                    swapped: bool, cmp: (T, T) -> int)
    requires Scanning(s0, s, lo, hi, pa, pb, pc, pd, swapped, cmp) && pb <= pc
    ensures cmp(s[pc], s[lo]) > 0 ==> Scanning(s0, s, lo, hi, pa, pb, pc - 1, pd, swapped, cmp)
    ensures cmp(s[pc], s[lo]) == 0 ==> Scanning(s0, Exchange(s, pc, pd), lo, hi, pa, pb, pc - 1, pd - 1, true, cmp)
  {
    ExchangePermutes(s, pc, pd, lo, hi);
  }

  /** Both scans stopped inside: a greater element at pb trades places with a smaller one at pc. */
  lemma ScanCross<T>(s0: seq<T>, s: seq<T>, lo: nat, hi: nat, pa: nat, pb: nat, pc: nat, pd: nat,
                     swapped: bool, cmp: (T, T) -> int)
    requires Scanning(s0, s, lo, hi, pa, pb, pc, pd, swapped, cmp) && pb <= pc < |s| && lo < |s|
    requires cmp(s[pb], s[lo]) > 0 && cmp(s[pc], s[lo]) < 0
    ensures pb < pc && Scanning(s0, Exchange(s, pb, pc), lo, hi, pa, pb + 1, pc - 1, pd, true, cmp)
  {
    ExchangePermutes(s, pb, pc, lo, hi);
  }

  /** The scan starts with nothing scanned ... */
  lemma ScanStart<T>(s: seq<T>, lo: nat, hi: nat, cmp: (T, T) -> int)
    requires lo + 1 < hi <= |s|
    ensures Scanning(s, s, lo, hi, lo + 1, lo + 1, hi - 1, hi - 1, false, cmp)
  {
  }

  /** ... and once the two scans have met, it knows whether there was anything to move. */
  lemma ScanEnd<T>(s0: seq<T>, s: seq<T>, lo: nat, hi: nat, pa: nat, pb: nat, pc: nat, pd: nat,
                   swapped: bool, cmp: (T, T) -> int)
    requires Scanning(s0, s, lo, hi, pa, pb, pc, pd, swapped, cmp) && pb > pc
    ensures lo < hi <= |s0| && (swapped <==> !AlreadySplit(s0, lo, hi, cmp))
    ensures !swapped ==> s == s0
    ensures pb == pc + 1 && s[lo] == s0[lo]
    ensures Permutes(s0, s, lo, hi) && Layout(s, lo, hi, pa, pb, pc, pd, cmp)
  {
  }

  /** Lines 121-128: scan up to an element greater than the pivot, parking equals at the left end. */
  method ScanUpward<T(!new)>(arr: array<T>, lo: nat, hi: nat, pa0: nat, pb0: nat, pc: nat, pd: nat,
                             swapped0: bool, cmp: (T, T) -> int, ghost s0: seq<T>)
    returns (pa: nat, pb: nat, swapped: bool, ghost calls: nat)
    requires Scanning(s0, arr[..], lo, hi, pa0, pb0, pc, pd, swapped0, cmp)
    modifies arr
    ensures Scanning(s0, arr[..], lo, hi, pa, pb, pc, pd, swapped, cmp)
    ensures pb0 <= pb <= pc + 1 && (pb <= pc ==> pc < arr.Length && cmp(arr[pb], arr[lo]) > 0)
    ensures calls == pb - pb0 + (if pb <= pc then 1 else 0)
  {
    hide Permutes, AlreadySplit;
    pa, pb, swapped, calls := pa0, pb0, swapped0, 0;
    while pb <= pc
      invariant Scanning(s0, arr[..], lo, hi, pa, pb, pc, pd, swapped, cmp)
      invariant calls == pb - pb0
    {
      calls := calls + 1;
      var cmpResult := cmp(arr[pb], arr[lo]);
      if cmpResult > 0 { break; }
      ScanUp(s0, arr[..], lo, hi, pa, pb, pc, pd, swapped, cmp);
      if cmpResult == 0 {
        swapped := true;
        Swap(arr, pa, pb);
        pa := pa + 1;
      }
      pb := pb + 1;
    }
  }

  /** Lines 129-136: scan down to an element less than the pivot, parking equals at the right end. */
  method ScanDownward<T(!new)>(arr: array<T>, lo: nat, hi: nat, pa: nat, pb: nat, pc0: nat, pd0: nat,
                               swapped0: bool, cmp: (T, T) -> int, ghost s0: seq<T>)
    returns (pc: nat, pd: nat, swapped: bool, ghost calls: nat)
    requires Scanning(s0, arr[..], lo, hi, pa, pb, pc0, pd0, swapped0, cmp)
    requires lo < arr.Length && (pb <= pc0 ==> pc0 < arr.Length && cmp(arr[pb], arr[lo]) > 0)
    modifies arr
    ensures Scanning(s0, arr[..], lo, hi, pa, pb, pc, pd, swapped, cmp)
    ensures pc <= pc0 && pb <= pc + 1
    ensures pb <= pc ==> cmp(arr[pb], arr[lo]) > 0 && cmp(arr[pc], arr[lo]) < 0
    ensures calls == pc0 - pc + (if pb <= pc then 1 else 0)
  {
    hide Permutes, AlreadySplit;
    pc, pd, swapped, calls := pc0, pd0, swapped0, 0;
    while pb <= pc
      invariant Scanning(s0, arr[..], lo, hi, pa, pb, pc, pd, swapped, cmp)
      invariant pc <= pc0 && (pb <= pc ==> cmp(arr[pb], arr[lo]) > 0)
      invariant calls == pc0 - pc
      decreases pc
    {
      calls := calls + 1;
      var cmpResult := cmp(arr[pc], arr[lo]);
      if cmpResult < 0 { break; }
      ScanDown(s0, arr[..], lo, hi, pa, pb, pc, pd, swapped, cmp);
      if cmpResult == 0 {
        swapped := true;
        Swap(arr, pc, pd);
        pd := pd - 1;
      }
      pc := pc - 1;
    }
  }

  /** Lines 117-143: the four-pointer scan. It leaves pb exactly one past pc, reports "swapped" exactly
      when there was something to move, and compares at most n times. */
  method FatPartition<T(!new)>(arr: array<T>, lo: nat, n: nat, cmp: (T, T) -> int)
    returns (pa: nat, pb: nat, pc: nat, pd: nat, swapped: bool, ghost calls: nat)
    requires 2 <= n && lo + n <= arr.Length
    modifies arr
    ensures Permutes(old(arr[..]), arr[..], lo, lo + n)
    ensures Layout(arr[..], lo, lo + n, pa, pb, pc, pd, cmp)
    ensures pb == pc + 1
    ensures arr[lo] == old(arr[lo])
    ensures swapped <==> !AlreadySplit(old(arr[..]), lo, lo + n, cmp)
    ensures !swapped ==> arr[..] == old(arr[..])
    ensures calls <= n
  {
    hide Permutes, AlreadySplit, Layout, Scanning;
    ghost var s0 := arr[..];
    ScanStart(s0, lo, lo + n, cmp);
    pa, pb := lo + 1, lo + 1;
    pc, pd := lo + (n - 1), lo + (n - 1);
    swapped := false;
    calls := 0;
    ghost var used;
    while true
      invariant Scanning(s0, arr[..], lo, lo + n, pa, pb, pc, pd, swapped, cmp)
      invariant calls == (pb - lo - 1) + (lo + n - 1 - pc)
      decreases pc + 1 - pb
    {
      pa, pb, swapped, used := ScanUpward(arr, lo, lo + n, pa, pb, pc, pd, swapped, cmp, s0);
      calls := calls + used;
      pc, pd, swapped, used := ScanDownward(arr, lo, lo + n, pa, pb, pc, pd, swapped, cmp, s0);
      calls := calls + used;
      if pb > pc { break; }
      ScanCross(s0, arr[..], lo, lo + n, pa, pb, pc, pd, swapped, cmp);
      Swap(arr, pb, pc);
      swapped := true;
      pb := pb + 1;
      pc := pc - 1;
    }
    ScanEnd(s0, arr[..], lo, lo + n, pa, pb, pc, pd, swapped, cmp);
  }

  // ---------- moving the equal elements to the middle ----------

  /** The vecswap macro, on whole elements: nothing happens for an empty block. */
  method VecSwap<T>(arr: array<T>, i: nat, j: nat, n: nat)
    requires i + n <= j && j + n <= arr.Length
    modifies arr
    ensures arr[..] == SwapBlocks(old(arr[..]), i, j, n)
  {
    var k := 0;
    assert SwapBlocks(arr[..], i, j, 0) == arr[..];
    while k < n
      invariant k <= n
      invariant arr[..] == SwapBlocks(old(arr[..]), i, j, k)
    {
      SwapBlocksStep(old(arr[..]), i, j, k);
      Swap(arr, i + k, j + k);
      k := k + 1;
    }
  }

  ghost predicate Equals<T(!new)>(cmp: (T, T) -> int, x: T, p: T) { x == p || cmp(x, p) == 0 }

  /** less / equal / greater than p, split at m1 and m2. */
  ghost predicate ThreeWay<T(!new)>(s: seq<T>, lo: nat, m1: nat, m2: nat, hi: nat, p: T, cmp: (T, T) -> int) {
    && lo <= m1 <= m2 <= hi <= |s|
    && (forall k :: lo <= k < m1 ==> cmp(s[k], p) < 0)
    && (forall k :: m1 <= k < m2 ==> Equals(cmp, s[k], p))
    && (forall k :: m2 <= k < hi ==> cmp(s[k], p) > 0)
  }

  function Min(x: nat, y: nat): nat { if x < y then x else y }

  /** Lines 152-156 as a function: each exchange moves the smaller of two adjacent blocks, so that its two
      operands never overlap. */
  function Gather<T>(s: seq<T>, lo: nat, hi: nat, pa: nat, pb: nat, pc: nat, pd: nat): (t: seq<T>)
    requires lo <= pa <= pb == pc + 1 && pc <= pd < hi <= |s|
    ensures |t| == |s|
  {
    var r1 := Min(pa - lo, pb - pa);
    var r2 := Min(pd - pc, hi - pd - 1);
    SwapBlocks(SwapBlocks(s, lo, pb - r1, r1), pb, hi - r2, r2)
  }

  lemma GatherLeft<T>(s: seq<T>, lo: nat, hi: nat, pa: nat, pb: nat, pc: nat, pd: nat, cmp: (T, T) -> int)
    requires Layout(s, lo, hi, pa, pb, pc, pd, cmp) && pb == pc + 1
    ensures var r := Min(pa - lo, pb - pa);
            var t := SwapBlocks(s, lo, pb - r, r);
            && (forall k :: lo <= k < lo + (pb - pa) ==> cmp(t[k], s[lo]) < 0)
            && (forall k :: lo + (pb - pa) <= k < pb ==> t[k] == s[lo] || cmp(t[k], s[lo]) == 0)
            && (forall k :: pb <= k < hi ==> t[k] == s[k])
  {
  }

  lemma GatherRight<T(!new)>(s: seq<T>, t: seq<T>, lo: nat, hi: nat, pa: nat, pb: nat, pc: nat, pd: nat,
                             cmp: (T, T) -> int)
    requires Layout(s, lo, hi, pa, pb, pc, pd, cmp) && pb == pc + 1 && |t| == |s|
    requires forall k :: lo <= k < lo + (pb - pa) ==> cmp(t[k], s[lo]) < 0
    requires forall k :: lo + (pb - pa) <= k < pb ==> t[k] == s[lo] || cmp(t[k], s[lo]) == 0
    requires forall k :: pb <= k < hi ==> t[k] == s[k]
    ensures var r := Min(pd - pc, hi - pd - 1);
            ThreeWay(SwapBlocks(t, pb, hi - r, r), lo, lo + (pb - pa), hi - (pd - pc), hi, s[lo], cmp)
  {
  }

  lemma GatherSplits<T(!new)>(s: seq<T>, lo: nat, hi: nat, pa: nat, pb: nat, pc: nat, pd: nat, cmp: (T, T) -> int)
    requires Layout(s, lo, hi, pa, pb, pc, pd, cmp) && pb == pc + 1
    ensures ThreeWay(Gather(s, lo, hi, pa, pb, pc, pd), lo, lo + (pb - pa), hi - (pd - pc), hi, s[lo], cmp)
  {
    hide ThreeWay, SwapBlocks;
    var r := Min(pa - lo, pb - pa);
    GatherRight(s, SwapBlocks(s, lo, pb - r, r), lo, hi, pa, pb, pc, pd, cmp) by {
      GatherLeft(s, lo, hi, pa, pb, pc, pd, cmp);
    }
  }

  lemma GatherPermutes<T>(s: seq<T>, lo: nat, hi: nat, pa: nat, pb: nat, pc: nat, pd: nat)
    requires lo <= pa <= pb == pc + 1 && pc <= pd < hi <= |s|
    ensures Permutes(s, Gather(s, lo, hi, pa, pb, pc, pd), lo, hi)
  {
    hide SwapBlocks;
    var r1 := Min(pa - lo, pb - pa);
    var r2 := Min(pd - pc, hi - pd - 1);
    var s1 := SwapBlocks(s, lo, pb - r1, r1);
    SwapBlocksPermutes(s, lo, pb - r1, r1, lo, hi);
    SwapBlocksPermutes(s1, pb, hi - r2, r2, lo, hi);
  }

  method GatherEqual<T>(arr: array<T>, lo: nat, n: nat, pa: nat, pb: nat, pc: nat, pd: nat)
    requires lo <= pa <= pb == pc + 1 && pc <= pd < lo + n <= arr.Length
    modifies arr
    ensures arr[..] == Gather(old(arr[..]), lo, lo + n, pa, pb, pc, pd)
  {
    hide SwapBlocks;
    var pn := lo + n;
    var r := Min(pa - lo, pb - pa);
    VecSwap(arr, lo, pb - r, r);
    r := Min(pd - pc, pn - pd - 1);
    VecSwap(arr, pb, pn - r, r);
  }

  // ---------- the sort ----------

  function Med3Calls<T>(s: seq<T>, i: nat, j: nat, k: nat, cmp: (T, T) -> int): (c: nat)
    requires i < |s| && j < |s| && k < |s|
    ensures c <= 3
  {
    if cmp(s[i], s[j]) < 0 then
      if cmp(s[j], s[k]) < 0 then 2 else 3
    else
      if cmp(s[j], s[k]) > 0 then 2 else 3
  }

  /** How many comparisons the pivot choice makes. */
  function PivotCalls<T>(s: seq<T>, lo: nat, n: nat, cmp: (T, T) -> int): (c: nat)
    requires 7 <= n && lo + n <= |s|
    ensures c <= 12
  {
    var pm := lo + n / 2;
    if n <= 7 then 0
    else
      var pl, pn := lo, lo + (n - 1);
      if n <= 40 then Med3Calls(s, pl, pm, pn, cmp)
      else
        var d := n / 8;
        Med3Calls(s, pl, pl + d, pl + 2 * d, cmp)
        + Med3Calls(s, pm - d, pm, pm + d, cmp)
        + Med3Calls(s, pn - 2 * d, pn - d, pn, cmp)
        + Med3Calls(s,
                    Med3(s, pl, pl + d, pl + 2 * d, cmp),
                    Med3(s, pm - d, pm, pm + d, cmp),
                    Med3(s, pn - 2 * d, pn - d, pn, cmp),
                    cmp)
  }

  /** Lines 104-143: choose a pivot, put it first, scan. */
  method PivotAndScan<T(!new)>(arr: array<T>, lo: nat, n: nat, cmp: (T, T) -> int)
    returns (pa: nat, pb: nat, pc: nat, pd: nat, swapped: bool, ghost calls: nat)
    requires 7 <= n && lo + n <= arr.Length
    modifies arr
    ensures Permutes(old(arr[..]), arr[..], lo, lo + n)
    ensures Layout(arr[..], lo, lo + n, pa, pb, pc, pd, cmp) && pb == pc + 1
    ensures var s := old(arr[..]); var pm := PivotIndex(s, lo, n, cmp);
            arr[lo] == s[pm] && (swapped <==> !AlreadySplit(Exchange(s, lo, pm), lo, lo + n, cmp))
    ensures calls <= 12 + n
  {
    hide Permutes, Layout, AlreadySplit, PivotIndex, PivotCalls;
    var pm := PivotIndex(arr[..], lo, n, cmp);
    calls := PivotCalls(arr[..], lo, n, cmp);
    ExchangePermutes(arr[..], lo, pm, lo, lo + n);
    Swap(arr, lo, pm);
    ghost var s1 := arr[..];
    ghost var used;
    pa, pb, pc, pd, swapped, used := FatPartition(arr, lo, n, cmp);
    calls := calls + used;
    PermutesTrans(old(arr[..]), s1, arr[..], lo, lo + n);
  }

  /** Lines 104-156: one pass. Either it found nothing to move and finished the range by insertion, or it
      splits the range around a non-empty block of elements equal to the pivot. */
  method Pass<T(!new)>(arr: array<T>, lo: nat, n: nat, cmp: (T, T) -> int)
    returns (finished: bool, m1: nat, m2: nat, ghost calls: nat)
    requires 7 <= n && lo + n <= arr.Length
    modifies arr
    ensures Permutes(old(arr[..]), arr[..], lo, lo + n)
    ensures finished && TotalPreorder(cmp) ==> SortedRange(arr[..], lo, lo + n, cmp)
    ensures var s := old(arr[..]); var pm := PivotIndex(s, lo, n, cmp);
            && (finished <==> AlreadySplit(Exchange(s, lo, pm), lo, lo + n, cmp))
            && (!finished ==> m1 < m2 && ThreeWay(arr[..], lo, m1, m2, lo + n, s[pm], cmp))
    ensures 2 * calls <= 24 + 2 * n + (if finished then n * (n - 1) else 0)
  {
    hide Permutes, ThreeWay, AlreadySplit, PivotIndex, SortedRange, Gather;
    ghost var used;
    var pa, pb, pc, pd, swapped;
    pa, pb, pc, pd, swapped, calls := PivotAndScan(arr, lo, n, cmp);
    ghost var s2 := arr[..];
    if !swapped {
      used := InsertionSort(arr, lo, n, cmp);
      calls := calls + used;
      finished, m1, m2 := true, lo, lo;
    } else {
      GatherSplits(s2, lo, lo + n, pa, pb, pc, pd, cmp);
      GatherPermutes(s2, lo, lo + n, pa, pb, pc, pd);
      GatherEqual(arr, lo, n, pa, pb, pc, pd);
      finished, m1, m2 := false, lo + (pb - pa), lo + n - (pd - pc);
    }
    PermutesTrans(old(arr[..]), s2, arr[..], lo, lo + n);
  }

  /** Everything before lo is in its final place: sorted, and not greater than anything after it. */
  ghost predicate Settled<T>(s: seq<T>, lo0: nat, lo: nat, hi: nat, cmp: (T, T) -> int)
    requires hi <= |s|
  {
    forall i, j :: lo0 <= i < lo && i < j < hi ==> cmp(s[i], s[j]) <= 0
  }

  /** Rearranging [lo, hi) keeps what is settled before lo. */
  lemma SettledKeep<T>(s: seq<T>, t: seq<T>, lo0: nat, lo: nat, hi: nat, cmp: (T, T) -> int)
    requires lo0 <= lo <= hi <= |s| && Permutes(s, t, lo, hi) && Settled(s, lo0, lo, hi, cmp)
    ensures Settled(t, lo0, lo, hi, cmp)
  {
    forall i, j | lo0 <= i < lo && i < j < hi
      ensures cmp(t[i], t[j]) <= 0
    {
      if j >= lo { PermutesKeep(s, t, lo, hi, x => cmp(s[i], x) <= 0); }
    }
  }

  /** A three-way split whose left part has been sorted settles everything up to m2. */
  lemma SettledExtend<T(!new)>(s: seq<T>, lo0: nat, lo: nat, m1: nat, m2: nat, hi: nat, p: T, cmp: (T, T) -> int)
    requires TotalPreorder(cmp) && lo0 <= lo && ThreeWay(s, lo, m1, m2, hi, p, cmp)
    requires Settled(s, lo0, lo, hi, cmp) && SortedRange(s, lo, m1, cmp)
    ensures Settled(s, lo0, m2, hi, cmp)
  {
    hide TotalPreorder;
    forall i, j | lo <= i < m2 && i < j < hi && j >= m1
      ensures cmp(s[i], s[j]) <= 0
    {
      Flip(cmp, s[j], p);
      Flip(cmp, p, p);
      Trans(cmp, s[i], p, s[j]);
    }
  }

  /** Sorting the left part keeps the three-way split. */
  lemma ThreeWayKeep<T(!new)>(s: seq<T>, t: seq<T>, lo: nat, m1: nat, m2: nat, hi: nat, p: T, cmp: (T, T) -> int)
    requires ThreeWay(s, lo, m1, m2, hi, p, cmp) && Permutes(s, t, lo, m1)
    ensures ThreeWay(t, lo, m1, m2, hi, p, cmp)
  {
    PermutesKeep(s, t, lo, m1, x => cmp(x, p) < 0);
  }

  lemma CallBoundSplit(n: nat, l: nat, r: nat, calls: nat)
    requires l + r < n && calls <= 12 + n
    ensures 2 * calls + TwiceCallBound(l) + TwiceCallBound(r) <= TwiceCallBound(n)
  {
    var m := n - 1 - (l + r);
    assert (l + r + m) * (l + r + m) == l * l + r * r + m * m + 2 * (l * r) + 2 * (l * m) + 2 * (r * m);
    assert l * r >= 0 && l * m >= 0 && r * m >= 0;
    assert n * n == (n - 1) * (n - 1) + 2 * n - 1;
  }

  lemma CallBoundInsertion(n: nat, calls: nat)
    requires n == 0 ==> calls == 0
    requires n > 0 ==> 2 * calls <= 24 + 2 * n + n * (n - 1)
    ensures 2 * calls <= TwiceCallBound(n)
  {
  }

  lemma SettledStart<T>(s: seq<T>, lo: nat, hi: nat, cmp: (T, T) -> int)
    requires hi <= |s|
    ensures Settled(s, lo, lo, hi, cmp) && Permutes(s, s, lo, hi)
  {
  }

  lemma ThreeWayBounds<T(!new)>(s: seq<T>, lo: nat, m1: nat, m2: nat, hi: nat, p: T, cmp: (T, T) -> int)
    requires ThreeWay(s, lo, m1, m2, hi, p, cmp)
    ensures lo <= m1 <= m2 <= hi <= |s|
  {
  }

  /** At most one element: nothing to sort, and nothing to permute. */
  lemma SortedSmall<T>(s: seq<T>, lo: nat, hi: nat, cmp: (T, T) -> int)
    requires hi <= |s| && hi <= lo + 1
    ensures SortedRange(s, lo, hi, cmp) && Permutes(s, s, lo, hi)
  {
  }

  lemma SettledDone<T>(s: seq<T>, lo0: nat, lo: nat, hi: nat, cmp: (T, T) -> int)
    requires lo0 <= lo && hi <= |s| && Settled(s, lo0, lo, hi, cmp) && SortedRange(s, lo, hi, cmp)
    ensures SortedRange(s, lo0, hi, cmp)
  {
  }

  /** The range [lo, hi) was finished by insertion: s0 before, s1 after. */
  lemma AfterInsertion<T(!new)>(s: seq<T>, s0: seq<T>, s1: seq<T>, lo0: nat, lo: nat, hi: nat, cmp: (T, T) -> int)
    requires lo0 <= lo <= hi <= |s0| && Permutes(s, s0, lo0, hi) && Permutes(s0, s1, lo, hi)
    requires TotalPreorder(cmp) ==> Settled(s0, lo0, lo, hi, cmp) && SortedRange(s1, lo, hi, cmp)
    ensures Permutes(s, s1, lo0, hi)
    ensures TotalPreorder(cmp) ==> SortedRange(s1, lo0, hi, cmp)
  {
    hide SortedRange, Settled;
    PermutesWiden(s0, s1, lo, hi, lo0, hi);
    PermutesTrans(s, s0, s1, lo0, hi);
    if TotalPreorder(cmp) {
      SettledKeep(s0, s1, lo0, lo, hi, cmp);
      SettledDone(s1, lo0, lo, hi, cmp);
    }
  }

  /** The range [lo, hi) was split by a pass (s0 to s1) and its left part sorted (s1 to s2). */
  lemma AfterPass<T(!new)>(s: seq<T>, s0: seq<T>, s1: seq<T>, s2: seq<T>, lo0: nat, lo: nat, m1: nat, m2: nat, hi: nat,
                           p: T, cmp: (T, T) -> int)
    requires lo0 <= lo <= hi <= |s0| && Permutes(s, s0, lo0, hi) && Permutes(s0, s1, lo, hi)
    requires ThreeWay(s1, lo, m1, m2, hi, p, cmp) && Permutes(s1, s2, lo, m1)
    requires TotalPreorder(cmp) ==> Settled(s0, lo0, lo, hi, cmp) && SortedRange(s2, lo, m1, cmp)
    ensures Permutes(s, s2, lo0, hi)
    ensures TotalPreorder(cmp) ==> Settled(s2, lo0, m2, hi, cmp)
  {
    hide SortedRange, Settled;
    PermutesWiden(s1, s2, lo, m1, lo, hi);
    PermutesTrans(s0, s1, s2, lo, hi);
    PermutesWiden(s0, s2, lo, hi, lo0, hi);
    PermutesTrans(s, s0, s2, lo0, hi);
    ThreeWayKeep(s1, s2, lo, m1, m2, hi, p, cmp);
    if TotalPreorder(cmp) {
      SettledKeep(s0, s2, lo0, lo, hi, cmp);
      SettledExtend(s2, lo0, lo, m1, m2, hi, p, cmp);
    }
  }

  /** qsort_imp. For every comparator the range is rearranged and nothing else is touched; for every total
      preorder it ends sorted; and the comparator is called at most n0(n0 + 25) / 2 times. */
  method QsortImp<T(!new)>(arr: array<T>, lo0: nat, n0: nat, cmp: (T, T) -> int) returns (ghost calls: nat)
    requires lo0 + n0 <= arr.Length
    modifies arr
    ensures Permutes(old(arr[..]), arr[..], lo0, lo0 + n0)
    ensures TotalPreorder(cmp) ==> SortedRange(arr[..], lo0, lo0 + n0, cmp)
    ensures 2 * calls <= TwiceCallBound(n0)
    decreases n0
  {
    hide Permutes, TotalPreorder, SortedRange, Settled, ThreeWay, TwiceCallBound, PivotIndex, AlreadySplit;
    var lo: nat, n: nat, pn: nat := lo0, n0, lo0 + n0;
    ghost var s := arr[..];
    ghost var used;
    calls := 0;
    SettledStart(s, lo0, pn, cmp);
    while true
      invariant lo0 <= lo && lo + n == pn && n <= n0
      invariant Permutes(s, arr[..], lo0, pn)
      invariant TotalPreorder(cmp) ==> Settled(arr[..], lo0, lo, pn, cmp)
      invariant 2 * calls + TwiceCallBound(n) <= TwiceCallBound(n0)
      decreases n
    {
      ghost var s0 := arr[..];
      if n < 7 {
        used := InsertionSort(arr, lo, n, cmp);
        calls := calls + used;
        CallBoundInsertion(n, used);
        AfterInsertion(s, s0, arr[..], lo0, lo, pn, cmp);
        return;
      }
      ghost var p := s0[PivotIndex(s0, lo, n, cmp)];
      var finished, m1, m2;
      finished, m1, m2, used := Pass(arr, lo, n, cmp);
      calls := calls + used;
      if finished {
        CallBoundInsertion(n, used);
        AfterInsertion(s, s0, arr[..], lo0, lo, pn, cmp);
        return;
      }
      ThreeWayBounds(arr[..], lo, m1, m2, pn, p, cmp);
      CallBoundSplit(n, m1 - lo, pn - m2, used);
      ghost var s1 := arr[..];
      if m1 - lo > 1 {
        used := QsortImp(arr, lo, m1 - lo, cmp);
        calls := calls + used;
      } else {
        SortedSmall(s1, lo, m1, cmp);
      }
      AfterPass(s, s0, s1, arr[..], lo0, lo, m1, m2, pn, p, cmp);
      if pn - m2 <= 1 {
        SortedSmall(arr[..], m2, pn, cmp);
        if TotalPreorder(cmp) { SettledDone(arr[..], lo0, m2, pn, cmp); }
        return;
      }
      lo, n := m2, pn - m2;
    }
  }
}
