/** Comparators, sorted ranges and permutations of a range: the vocabulary of the sort's contract. */
module Orders {

  /** What section 7.22.5.2 of ISO/IEC 9899:2011 demands of the comparison function. */
  ghost predicate TotalPreorder<T(!new)>(cmp: (T, T) -> int) {
    && (forall x, y :: cmp(x, y) < 0 <==> cmp(y, x) > 0)
    && (forall x, y, z :: cmp(x, y) <= 0 && cmp(y, z) <= 0 ==> cmp(x, z) <= 0)
  }

  lemma Flip<T(!new)>(cmp: (T, T) -> int, x: T, y: T)
    requires TotalPreorder(cmp)
    ensures (cmp(x, y) < 0 <==> cmp(y, x) > 0) && (cmp(x, y) == 0 <==> cmp(y, x) == 0)
  {
  }

  lemma Trans<T(!new)>(cmp: (T, T) -> int, x: T, y: T, z: T)
    requires TotalPreorder(cmp) && cmp(x, y) <= 0 && cmp(y, z) <= 0
    ensures cmp(x, z) <= 0
  {
  }

  ghost predicate SortedRange<T>(s: seq<T>, lo: nat, hi: nat, cmp: (T, T) -> int)
    requires hi <= |s|
  {
    forall i, j :: lo <= i < j < hi ==> cmp(s[i], s[j]) <= 0
  }

  /** t is s with the elements of [lo, hi) rearranged and nothing else touched. */
  ghost predicate Permutes<T>(s: seq<T>, t: seq<T>, lo: nat, hi: nat) {
    && |s| == |t|
    && multiset(s) == multiset(t)
    && forall k :: 0 <= k < |s| && !(lo <= k < hi) ==> t[k] == s[k]
  }

  function Exchange<T>(s: seq<T>, i: nat, j: nat): (t: seq<T>)
    requires i < |s| && j < |s|
    ensures |t| == |s|
  {
    s[i := s[j]][j := s[i]]
  }

  lemma ExchangePermutes<T>(s: seq<T>, i: nat, j: nat, lo: nat, hi: nat)
    requires lo <= i < hi <= |s| && lo <= j < hi
    ensures Permutes(s, Exchange(s, i, j), lo, hi)
  {
  }

  lemma PermutesTrans<T>(s: seq<T>, t: seq<T>, u: seq<T>, lo: nat, hi: nat)
    requires Permutes(s, t, lo, hi) && Permutes(t, u, lo, hi)
    ensures Permutes(s, u, lo, hi)
  {
  }

  lemma PermutesWiden<T>(s: seq<T>, t: seq<T>, lo: nat, hi: nat, lo': nat, hi': nat)
    requires Permutes(s, t, lo, hi) && lo' <= lo && hi <= hi'
    ensures Permutes(s, t, lo', hi')
  {
  }

  /** Rearranging the whole while fixing everything outside [lo, hi) rearranges [lo, hi). */
  lemma PermutesRange<T>(s: seq<T>, t: seq<T>, lo: nat, hi: nat)
    requires Permutes(s, t, lo, hi) && lo <= hi <= |s|
    ensures multiset(s[lo..hi]) == multiset(t[lo..hi])
  {
    RangeMultiset(s, lo, hi);
    RangeMultiset(t, lo, hi);
    assert s[..lo] == t[..lo] && s[hi..] == t[hi..];
  }

  lemma RangeMultiset<T>(s: seq<T>, lo: nat, hi: nat)
    requires lo <= hi <= |s|
    ensures multiset(s[lo..hi]) == multiset(s) - multiset(s[..lo]) - multiset(s[hi..])
  {
    assert s == s[..lo] + s[lo..hi] + s[hi..];
  }

  /** Whatever holds of every element of the range still holds after a rearrangement. */
  lemma PermutesKeep<T>(s: seq<T>, t: seq<T>, lo: nat, hi: nat, ok: T -> bool)
    requires Permutes(s, t, lo, hi) && lo <= hi <= |s|
    requires forall k :: lo <= k < hi ==> ok(s[k])
    ensures forall k :: lo <= k < hi ==> ok(t[k])
  {
    PermutesRange(s, t, lo, hi);
    forall k | lo <= k < hi
      ensures ok(t[k])
    {
      assert t[k] == t[lo..hi][k - lo];
      assert t[k] in multiset(t[lo..hi]);
      assert t[k] in s[lo..hi];
    }
  }
}
