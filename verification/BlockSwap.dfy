/** The block exchange under the sort (driver/qsort.c:44-75), first on any sequence, then on memory
    bytes moved a machine word at a time, and the proof that the two agree. */
module BlockSwap {
  import opened Orders
  import opened Words

  /** s with the n elements at i and the n elements at j exchanged. */
  function SwapBlocks<T>(s: seq<T>, i: nat, j: nat, n: nat): (t: seq<T>)
    requires i + n <= |s| && j + n <= |s|
    ensures |t| == |s|
  {
    seq(|s|, k requires 0 <= k < |s| =>
      if i <= k < i + n then s[j + (k - i)] else if j <= k < j + n then s[i + (k - j)] else s[k])
  }

  lemma SwapBlocksNone<T>(s: seq<T>, i: nat, j: nat)
    requires i <= |s| && j <= |s|
    ensures SwapBlocks(s, i, j, 0) == s
  {
  }

  /** One more element pair exchanged. */
  lemma SwapBlocksStep<T>(s: seq<T>, i: nat, j: nat, n: nat)
    requires i + n < |s| && j + n < |s| && (i + n < j || j + n < i || i == j)
    ensures SwapBlocks(s, i, j, n + 1) == Exchange(SwapBlocks(s, i, j, n), i + n, j + n)
  {
  }

  /** A block exchange continued by the next block is one longer exchange. */
  lemma SwapBlocksJoin<T>(s: seq<T>, i: nat, j: nat, n: nat, m: nat)
    requires i + n + m <= |s| && j + n + m <= |s| && DisjointOrSame(i, j, n + m)
    ensures SwapBlocks(SwapBlocks(s, i, j, n), i + n, j + n, m) == SwapBlocks(s, i, j, n + m)
  {
  }

  /** An exchange of single elements is a block exchange of length one. */
  lemma ExchangeIsBlock<T>(s: seq<T>, i: nat, j: nat)
    requires i < |s| && j < |s|
    ensures Exchange(s, i, j) == SwapBlocks(s, i, j, 1)
  {
  }

  lemma {:induction false} SwapBlocksPermutes<T>(s: seq<T>, i: nat, j: nat, n: nat, lo: nat, hi: nat)
    requires i + n <= j && lo <= i && j + n <= hi <= |s|
    ensures Permutes(s, SwapBlocks(s, i, j, n), lo, hi)
  {
    if n == 0 {
      SwapBlocksNone(s, i, j);
    } else {
      SwapBlocksPermutes(s, i, j, n - 1, lo, hi);
      SwapBlocksStep(s, i, j, n - 1);
      ExchangePermutes(SwapBlocks(s, i, j, n - 1), i + n - 1, j + n - 1, lo, hi);
    }
  }

  // ---------- memory ----------

  /** sizeof(long) on the console. */
  const WORD: nat := 4

  /** SWAPINIT: 0 for aligned elements of one word, 1 for aligned elements of whole words, 2 otherwise. */
  function SwapInit(addr: nat, es: nat): (swaptype: nat) {
    if addr % WORD != 0 || es % WORD != 0 then 2 else if es == WORD then 0 else 1
  }

  predicate DisjointOrSame(a: nat, b: nat, n: nat) { a + n <= b || b + n <= a || a == b }

  /** One word exchanged through a word-sized temporary. */
  method SwapWord(mem: array<byte>, pi: nat, pj: nat)
    requires DisjointOrSame(pi, pj, WORD) && pi + WORD <= mem.Length && pj + WORD <= mem.Length
    modifies mem
    ensures mem[..] == SwapBlocks(old(mem[..]), pi, pj, WORD)
  {
    var t0, t1, t2, t3 := mem[pi], mem[pi + 1], mem[pi + 2], mem[pi + 3];
    mem[pi], mem[pi + 1], mem[pi + 2], mem[pi + 3] := mem[pj], mem[pj + 1], mem[pj + 2], mem[pj + 3];
    mem[pj], mem[pj + 1], mem[pj + 2], mem[pj + 3] := t0, t1, t2, t3;
  }

  /** swapcode(long): a do-while over whole words. */
  method SwapWords(mem: array<byte>, a: nat, b: nat, n: nat)
    requires 0 < n && n % WORD == 0 && DisjointOrSame(a, b, n)
    requires a + n <= mem.Length && b + n <= mem.Length
    modifies mem
    ensures mem[..] == SwapBlocks(old(mem[..]), a, b, n)
  {
    hide SwapBlocks;
    var i, pi, pj := n / WORD, a, b;
    ghost var m := mem[..];
    SwapBlocksNone(m, a, b);
    while true
      invariant 1 <= i && pi - a == pj - b == n - WORD * i
      invariant mem[..] == SwapBlocks(m, a, b, n - WORD * i)
      decreases i
    {
      SwapBlocksJoin(m, a, b, n - WORD * i, WORD);
      SwapWord(mem, pi, pj);
      pi := pi + WORD;
      pj := pj + WORD;
      i := i - 1;
      if i == 0 { break; }
    }
  }

  /** swapcode(char): the same, a byte at a time. */
  method SwapChars(mem: array<byte>, a: nat, b: nat, n: nat)
    requires 0 < n && DisjointOrSame(a, b, n)
    requires a + n <= mem.Length && b + n <= mem.Length
    modifies mem
    ensures mem[..] == SwapBlocks(old(mem[..]), a, b, n)
  {
    hide SwapBlocks;
    var i, pi, pj := n, a, b;
    ghost var m := mem[..];
    SwapBlocksNone(m, a, b);
    while true
      invariant 1 <= i <= n && pi - a == pj - b == n - i
      invariant mem[..] == SwapBlocks(m, a, b, n - i)
      decreases i
    {
      SwapBlocksStep(m, a, b, n - i);
      var t := mem[pi];
      mem[pi] := mem[pj];
      pi := pi + 1;
      mem[pj] := t;
      pj := pj + 1;
      i := i - 1;
      if i == 0 { break; }
    }
  }

  method SwapFunc(mem: array<byte>, a: nat, b: nat, n: nat, swaptype: nat)
    requires 0 < n && (swaptype <= 1 ==> n % WORD == 0) && DisjointOrSame(a, b, n)
    requires a + n <= mem.Length && b + n <= mem.Length
    modifies mem
    ensures mem[..] == SwapBlocks(old(mem[..]), a, b, n)
  {
    if swaptype <= 1 {
      SwapWords(mem, a, b, n);
    } else {
      SwapChars(mem, a, b, n);
    }
  }

  /** The swap macro on the elements at a and b. */
  method SwapMacro(mem: array<byte>, a: nat, b: nat, es: nat, swaptype: nat)
    requires 0 < es && swaptype == SwapInit(a, es) && DisjointOrSame(a, b, es)
    requires a + es <= mem.Length && b + es <= mem.Length
    modifies mem
    ensures mem[..] == SwapBlocks(old(mem[..]), a, b, es)
  {
    if swaptype == 0 {
      SwapWord(mem, a, b);
    } else {
      SwapFunc(mem, a, b, es, swaptype);
    }
  }

  /** The vecswap macro on blocks of n bytes, a whole number of elements and possibly none. */
  method VecSwapMacro(mem: array<byte>, a: nat, b: nat, n: nat, es: nat, swaptype: nat)
    requires 0 < es && swaptype == SwapInit(a, es) && n % es == 0 && DisjointOrSame(a, b, n)
    requires a + n <= mem.Length && b + n <= mem.Length
    modifies mem
    ensures mem[..] == SwapBlocks(old(mem[..]), a, b, n)
  {
    if n > 0 {
      if swaptype <= 1 { MultipleOfWords(n, es); }
      SwapFunc(mem, a, b, n, swaptype);
    }
  }

  lemma MultipleOfWords(n: nat, es: nat)
    requires 0 < es && n % es == 0 && es % WORD == 0
    ensures n % WORD == 0
  {
    var q, w := n / es, es / WORD;
    assert n == q * es && es == WORD * w;
    assert n == WORD * (q * w);
  }

  /** Every element of an aligned table is aligned, so SWAPINIT gives the same answer whichever element the
      range starts at: after the jump back to "loop", too. */
  lemma SwapInitStable(addr: nat, es: nat, k: nat)
    ensures SwapInit(addr + k * es, es) == SwapInit(addr, es)
  {
    if es % WORD == 0 {
      var w := es / WORD;
      assert addr + k * es == addr + WORD * (k * w);
    }
  }

  // ---------- elements in memory ----------

  /** The address of element k, and the size of a block of r elements. */
  function At(base: nat, es: nat, k: nat): nat { base + k * es }
  function Size(es: nat, r: nat): nat { r * es }

  /** The n elements of size es laid out from address base. */
  function Elements(m: seq<byte>, base: nat, es: nat, n: nat): (v: seq<seq<byte>>)
    requires At(base, es, n) <= |m|
    ensures |v| == n
  {
    seq(n, k requires 0 <= k < n => AtOrder(base, es, k, n); m[At(base, es, k)..At(base, es, k) + es])
  }

  lemma AtOrder(base: nat, es: nat, k: nat, n: nat)
    requires k <= n
    ensures At(base, es, n) == At(base, es, k) + Size(es, n - k)
    ensures k < n ==> At(base, es, k) + es <= At(base, es, n)
  {
    assert n * es == k * es + (n - k) * es;
    if k < n { assert (n - k) * es == es + (n - k - 1) * es; }
  }

  /** Which bytes a slice of the exchanged memory comes from, when it lies within one block or outside both. */
  lemma SliceMoved(m: seq<byte>, a: nat, b: nat, n: nat, p: nat, w: nat)
    requires a + n <= |m| && b + n <= |m| && p + w <= |m| && DisjointOrSame(a, b, n)
    ensures var t := SwapBlocks(m, a, b, n);
            && (a <= p && p + w <= a + n ==> t[p..p + w] == m[b + (p - a)..b + (p - a) + w])
            && (b <= p && p + w <= b + n ==> t[p..p + w] == m[a + (p - b)..a + (p - b) + w])
            && ((p + w <= a || a + n <= p) && (p + w <= b || b + n <= p) ==> t[p..p + w] == m[p..p + w])
  {
    var t := SwapBlocks(m, a, b, n);
    if a <= p && p + w <= a + n {
      SliceFrom(m, t, p, b + (p - a), w);
    }
    if b <= p && p + w <= b + n {
      SliceFrom(m, t, p, a + (p - b), w);
    }
    if (p + w <= a || a + n <= p) && (p + w <= b || b + n <= p) {
      SliceFrom(m, t, p, p, w);
    }
  }

  lemma SliceFrom(m: seq<byte>, t: seq<byte>, p: nat, q: nat, w: nat)
    requires p + w <= |t| && q + w <= |m|
    requires forall k :: p <= k < p + w ==> t[k] == m[q + (k - p)]
    ensures t[p..p + w] == m[q..q + w]
  {
  }

  /** The index an element comes from when the r elements at i and at j are exchanged. */
  function Source(i: nat, j: nat, r: nat, k: nat): nat {
    if i <= k < i + r then j + (k - i) else if j <= k < j + r then i + (k - j) else k
  }

  /** Element k lies inside the block of r elements at i, and as far into it as k is past i, or outside it. */
  lemma AtBlock(base: nat, es: nat, i: nat, j: nat, r: nat, k: nat)
    ensures At(base, es, i + r) == At(base, es, i) + Size(es, r)
    ensures i <= k < i + r ==> At(base, es, i) <= At(base, es, k) && At(base, es, k) + es <= At(base, es, i + r)
    ensures i <= k ==> At(base, es, j + (k - i)) - At(base, es, j) == At(base, es, k) - At(base, es, i)
    ensures k < i ==> At(base, es, k) + es <= At(base, es, i)
    ensures i + r <= k ==> At(base, es, i + r) <= At(base, es, k)
  {
    hide At;
    AtOrder(base, es, i, i + r);
    if k < i { AtOrder(base, es, k, i); }
    if i <= k {
      AtOrder(base, es, i, k);
      AtOrder(base, es, j, j + (k - i));
    }
    if i <= k < i + r { AtOrder(base, es, k, i + r); }
    if i + r <= k { AtOrder(base, es, i + r, k); }
  }

  lemma BlockFits(base: nat, es: nat, n: nat, i: nat, j: nat, r: nat)
    requires i + r <= n && j + r <= n && DisjointOrSame(i, j, r)
    ensures At(base, es, i) + Size(es, r) <= At(base, es, n) && At(base, es, j) + Size(es, r) <= At(base, es, n)
    ensures DisjointOrSame(At(base, es, i), At(base, es, j), Size(es, r))
  {
    hide At;
    AtOrder(base, es, i, i + r);
    AtOrder(base, es, i + r, n);
    AtOrder(base, es, j, j + r);
    AtOrder(base, es, j + r, n);
    if i + r <= j { AtOrder(base, es, i + r, j); } else if j + r <= i { AtOrder(base, es, j + r, i); }
  }

  lemma ElementMoved(m: seq<byte>, base: nat, es: nat, n: nat, i: nat, j: nat, r: nat, k: nat)
    requires At(base, es, n) <= |m| && i + r <= n && j + r <= n && DisjointOrSame(i, j, r) && k < n
    requires At(base, es, i) + Size(es, r) <= |m| && At(base, es, j) + Size(es, r) <= |m|
    ensures var t := SwapBlocks(m, At(base, es, i), At(base, es, j), Size(es, r));
            && At(base, es, k) + es <= |m| && At(base, es, Source(i, j, r, k)) + es <= |m|
            && t[At(base, es, k)..At(base, es, k) + es]
               == m[At(base, es, Source(i, j, r, k))..At(base, es, Source(i, j, r, k)) + es]
  {
    hide SwapBlocks, At, Size;
    BlockFits(base, es, n, i, j, r);
    AtOrder(base, es, k, n);
    AtOrder(base, es, Source(i, j, r, k), n);
    SliceMoved(m, At(base, es, i), At(base, es, j), Size(es, r), At(base, es, k), es);
    AtBlock(base, es, i, j, r, k);
    AtBlock(base, es, j, i, r, k);
  }

  /** Exchanging two byte blocks that hold r elements each exchanges exactly those elements: what the sort
      does to its element array is what the block swap does to memory. */
  lemma SwapElementsRefines(m: seq<byte>, base: nat, es: nat, n: nat, i: nat, j: nat, r: nat)
    requires At(base, es, n) <= |m| && i + r <= n && j + r <= n && DisjointOrSame(i, j, r)
    ensures At(base, es, i) + Size(es, r) <= |m| && At(base, es, j) + Size(es, r) <= |m|
    ensures Elements(SwapBlocks(m, At(base, es, i), At(base, es, j), Size(es, r)), base, es, n)
         == SwapBlocks(Elements(m, base, es, n), i, j, r)
  {
    hide At, Size;
    BlockFits(base, es, n, i, j, r);
    var m' := SwapBlocks(m, At(base, es, i), At(base, es, j), Size(es, r));
    var v, v' := Elements(m, base, es, n), Elements(m', base, es, n);
    forall k | 0 <= k < n
      ensures v'[k] == SwapBlocks(v, i, j, r)[k]
    {
      ElementMoved(m, base, es, n, i, j, r, k);
      assert SwapBlocks(v, i, j, r)[k] == v[Source(i, j, r, k)];
    }
  }

  /** The swap macro on elements i and j of the n elements at base, in a pass over the range from lo on: it does to them
      what the sort's own exchange does to an array of elements. */
  method SwapElements(mem: array<byte>, base: nat, es: nat, n: nat, lo: nat, i: nat, j: nat)
    requires 0 < es && At(base, es, n) <= mem.Length && lo < n && i < n && j < n
    modifies mem
    ensures Elements(mem[..], base, es, n) == Exchange(old(Elements(mem[..], base, es, n)), i, j)
  {
    hide At, Elements, SwapInit;
    var swaptype := SwapInit(At(base, es, lo), es);
    AtStable(base, es, lo, i);
    BlockFits(base, es, n, i, j, 1);
    SwapElementsRefines(mem[..], base, es, n, i, j, 1);
    ExchangeIsBlock(Elements(mem[..], base, es, n), i, j);
    SwapMacro(mem, At(base, es, i), At(base, es, j), es, swaptype);
  }

  /** The vecswap macro on the r elements at i and at j, the same way. */
  method VecSwapElements(mem: array<byte>, base: nat, es: nat, n: nat, lo: nat, i: nat, j: nat, r: nat)
    requires 0 < es && At(base, es, n) <= mem.Length && lo < n && i + r <= n && j + r <= n && DisjointOrSame(i, j, r)
    modifies mem
    ensures Elements(mem[..], base, es, n) == SwapBlocks(old(Elements(mem[..], base, es, n)), i, j, r)
  {
    hide At, Elements, SwapInit, SwapBlocks, Size;
    var swaptype := SwapInit(At(base, es, lo), es);
    AtStable(base, es, lo, i);
    BlockFits(base, es, n, i, j, r);
    SwapElementsRefines(mem[..], base, es, n, i, j, r);
    SizeWhole(es, r);
    VecSwapMacro(mem, At(base, es, i), At(base, es, j), Size(es, r), es, swaptype);
  }

  lemma AtStable(base: nat, es: nat, k: nat, i: nat)
    ensures SwapInit(At(base, es, k), es) == SwapInit(At(base, es, i), es)
  {
    SwapInitStable(base, es, k);
    SwapInitStable(base, es, i);
  }

  lemma SizeWhole(es: nat, r: nat)
    requires 0 < es
    ensures Size(es, r) % es == 0
  {
    var x := r * es;
    var q, m := x / es, x % es;
    assert x == q * es + m;
    if r > q {
      assert r * es == q * es + (r - q - 1) * es + es;
    } else if r < q {
      assert q * es == r * es + (q - r - 1) * es + es;
    }
  }
}
