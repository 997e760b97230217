/** Facts about sequences of integers shared by the in-place array algorithms. */
module Sequences {

  /** The exchange of two slots. */
  function Swap(h: seq<int>, i: int, j: int): (r: seq<int>)
    requires 0 <= i < |h| && 0 <= j < |h|
    ensures |r| == |h| && r[i] == h[j] && r[j] == h[i]
    ensures forall k :: 0 <= k < |h| && k != i && k != j ==> r[k] == h[k]
    ensures multiset(r) == multiset(h)
  {
    h[i := h[j]][j := h[i]]
  }

  /** `s` with the slots from `k` on overwritten by `r`. */
  function Splice(s: seq<int>, k: int, r: seq<int>): (u: seq<int>)
    requires 0 <= k && k + |r| <= |s|
    ensures |u| == |s|
    ensures forall t :: 0 <= t < |s| ==> u[t] == (if k <= t < k + |r| then r[t - k] else s[t])
  {
    s[..k] + r + s[k + |r|..]
  }

  /** Overwriting a run and then the run right after it is overwriting both at once. */
  lemma {:induction false} SpliceTwice(s: seq<int>, k: int, r1: seq<int>, r2: seq<int>)
    requires 0 <= k && k + |r1| + |r2| <= |s|
    ensures Splice(Splice(s, k, r1), k + |r1|, r2) == Splice(s, k, r1 + r2)
  {
  }

  /** Overwriting a front of `m` and then two runs that make up the rest of it overwrites all of `m`. */
  lemma {:induction false} SpliceInThree(s: seq<int>, m: seq<int>, k: int, n: int, x: seq<int>, y: seq<int>)
    requires 0 <= k && k + |m| <= |s| && 0 <= n <= |m| && m[n..] == x + y
    ensures Splice(Splice(Splice(s, k, m[..n]), k + n, x), k + n + |x|, y) == Splice(s, k, m)
  {
    SpliceTwice(Splice(s, k, m[..n]), k + n, x, y);
    SpliceTwice(s, k, m[..n], x + y);
    assert m[..n] + (x + y) == m;
  }

  /** `SpliceInThree` for three successive states. */
  lemma {:induction false} SpliceSteps(s0: seq<int>, s1: seq<int>, s2: seq<int>, s3: seq<int>,
                                       m: seq<int>, k: int, n: int, x: seq<int>, y: seq<int>)
    requires 0 <= k && k + |m| <= |s0| && 0 <= n <= |m| && m[n..] == x + y
    requires s1 == Splice(s0, k, m[..n]) && s2 == Splice(s1, k + n, x) && s3 == Splice(s2, k + n + |x|, y)
    ensures s3 == Splice(s0, k, m)
  {
    SpliceInThree(s0, m, k, n, x, y);
  }

  /** Writing the next slot after an overwritten front of `m` overwrites one more slot of it. */
  lemma {:induction false} SpliceExtend(s: seq<int>, cur: seq<int>, k: int, m: seq<int>, n: int)
    requires 0 <= k && 0 <= n < |m| && k + |m| <= |s| && cur == Splice(s, k, m[..n])
    ensures cur[k + n := m[n]] == Splice(s, k, m[..n + 1])
  {
  }

  /** An overwritten run reads back as written, and nothing outside it changes. */
  lemma {:induction false} SpliceRead(s: seq<int>, k: int, r: seq<int>)
    requires 0 <= k && k + |r| <= |s|
    ensures Splice(s, k, r)[k..k + |r|] == r
    ensures SameOutside(Splice(s, k, r), s, k, k + |r|)
  {
  }

  /** `s` and `t` have the same length and agree outside `[lo, hi)`. */
  predicate SameOutside(s: seq<int>, t: seq<int>, lo: int, hi: int)
  {
    |s| == |t| && forall k :: 0 <= k < |s| && !(lo <= k < hi) ==> s[k] == t[k]
  }

  /** Three steps that each keep the outside of a part of a range keep the outside of the range. */
  lemma SameOutsideChain(s: seq<int>, t: seq<int>, u: seq<int>, v: seq<int>, lo: int, hi: int,
                         lo0: int, hi0: int, lo1: int, hi1: int, lo2: int, hi2: int)
    requires lo <= lo0 && hi0 <= hi && lo <= lo1 && hi1 <= hi && lo <= lo2 && hi2 <= hi
    requires SameOutside(s, t, lo0, hi0) && SameOutside(t, u, lo1, hi1) && SameOutside(u, v, lo2, hi2)
    ensures SameOutside(s, v, lo, hi)
  {
  }

  /** The multiset of a sequence is that of its three parts around a range. */
  lemma {:induction false} ThreeParts(s: seq<int>, lo: int, hi: int)
    requires 0 <= lo <= hi <= |s|
    ensures multiset(s) == multiset(s[..lo]) + multiset(s[lo..hi]) + multiset(s[hi..])
  {
    assert s == s[..lo] + s[lo..hi] + s[hi..];
  }

  /** The values of a range are those of its two halves. */
  lemma {:induction false} AdjacentSlices(s: seq<int>, lo: int, mid: int, hi: int)
    requires 0 <= lo <= mid <= hi <= |s|
    ensures multiset(s[lo..hi]) == multiset(s[lo..mid]) + multiset(s[mid..hi])
  {
    assert s[lo..hi] == s[lo..mid] + s[mid..hi];
  }

  /** Outside the range, `s` and `t` have the same parts. */
  lemma {:induction false} SameParts(s: seq<int>, t: seq<int>, lo: int, hi: int)
    requires 0 <= lo <= hi <= |s| && SameOutside(s, t, lo, hi)
    ensures s[..lo] == t[..lo] && s[hi..] == t[hi..]
  {
  }

  /** Rearranging the slots of a range rearranges the whole sequence. */
  lemma {:induction false} RangePermutation(s: seq<int>, t: seq<int>, lo: int, hi: int)
    requires 0 <= lo <= hi <= |s| && SameOutside(s, t, lo, hi)
    requires multiset(s[lo..hi]) == multiset(t[lo..hi])
    ensures multiset(s) == multiset(t)
  {
    ThreeParts(s, lo, hi);
    ThreeParts(t, lo, hi);
    SameParts(s, t, lo, hi);
  }

  /** A rearrangement that leaves everything outside a range alone rearranges that range. */
  lemma {:induction false} PermutationOfRange(s: seq<int>, t: seq<int>, lo: int, hi: int)
    requires 0 <= lo <= hi <= |s| && SameOutside(s, t, lo, hi)
    requires multiset(s) == multiset(t)
    ensures multiset(s[lo..hi]) == multiset(t[lo..hi])
  {
    ThreeParts(s, lo, hi);
    ThreeParts(t, lo, hi);
    SameParts(s, t, lo, hi);
    var outside := multiset(s[..lo]) + multiset(s[hi..]);
    assert multiset(s[lo..hi]) == multiset(s) - outside;
  }

  predicate AllBelow(s: seq<int>, lo: int, hi: int, pivot: int)
    requires 0 <= lo && hi <= |s|
  {
    forall k :: lo <= k < hi ==> s[k] < pivot
  }

  predicate AllAtLeast(s: seq<int>, lo: int, hi: int, pivot: int)
    requires 0 <= lo && hi <= |s|
  {
    forall k :: lo <= k < hi ==> s[k] >= pivot
  }

  /** A bound on every value of a range survives any rearrangement of the range. */
  lemma {:induction false} BoundsCarry(s: seq<int>, t: seq<int>, lo: int, hi: int, pivot: int)
    requires 0 <= lo <= hi <= |s| && hi <= |t|
    requires multiset(s[lo..hi]) == multiset(t[lo..hi])
    ensures AllBelow(t, lo, hi, pivot) ==> AllBelow(s, lo, hi, pivot)
    ensures AllAtLeast(t, lo, hi, pivot) ==> AllAtLeast(s, lo, hi, pivot)
  {
    forall k | lo <= k < hi
      ensures exists m :: lo <= m < hi && t[m] == s[k]
    {
      assert s[k] == s[lo..hi][k - lo];
      assert s[k] in multiset(t[lo..hi]);
      var m :| 0 <= m < hi - lo && t[lo..hi][m] == s[k];
      assert t[lo + m] == s[k];
    }
  }
}
