/**
 * `SortingAlgorithmVisualizer.tsx`: bubble, quick, selection and merge sort
 * over the displayed array, each sorting a copy of it in place (every
 * `setArray` snapshot and `sleep` between them is presentation), the
 * dispatch of the start button on the selected name, and the parsing of a
 * comma-separated custom array.
 */
module Sorting {
  import opened Wrappers
  import opened Numbers
  import opened Text
  import opened Sequences

  /** `s[lo..hi)` is in ascending order. */
  predicate SortedBetween(s: seq<int>, lo: int, hi: int)
    requires 0 <= lo && hi <= |s|
  {
    forall i, j :: lo <= i < j < hi ==> s[i] <= s[j]
  }

  predicate Sorted(s: seq<int>)
  {
    SortedBetween(s, 0, |s|)
  }

  /** Every value before position `m` is at most every value from `m` on. */
  predicate Partitioned(s: seq<int>, m: int)
  {
    forall x, y :: 0 <= x < m <= y < |s| ==> s[x] <= s[y]
  }

  /** A sorted front, a sorted back and nothing out of order between them make a sorted whole. */
  lemma {:induction false} SortedFromParts(s: seq<int>, m: int)
    requires 0 <= m <= |s| && SortedBetween(s, 0, m) && SortedBetween(s, m, |s|) && Partitioned(s, m)
    ensures Sorted(s)
  {
    forall i, j | 0 <= i < j < |s|
      ensures s[i] <= s[j]
    {
      if j < m || m <= i {
      } else {
        assert i < m <= j;
      }
    }
  }

  /** The head of a sorted sequence is at most each of its values. */
  lemma {:induction false} HeadIsLeast(s: seq<int>, x: int)
    requires Sorted(s) && x in multiset(s)
    ensures s[0] <= x
  {
    var i :| 0 <= i < |s| && s[i] == x;
    assert i == 0 || s[0] <= s[i];
  }

  lemma {:induction false} TailSorted(s: seq<int>)
    requires Sorted(s) && |s| > 0
    ensures Sorted(s[1..])
  {
    forall i, j | 0 <= i < j < |s| - 1
      ensures s[1..][i] <= s[1..][j]
    {
      assert s[1..][i] == s[i + 1] && s[1..][j] == s[j + 1];
    }
  }

  lemma {:induction false} HeadAndTail(s: seq<int>)
    requires |s| > 0
    ensures multiset(s) == multiset{s[0]} + multiset(s[1..])
    ensures multiset(s[1..]) == multiset(s) - multiset{s[0]}
  {
    assert s == [s[0]] + s[1..];
  }

  /** Two sorted rearrangements of the same values are the same sequence. */
  lemma {:induction false} SortedUnique(s: seq<int>, t: seq<int>)
    requires Sorted(s) && Sorted(t) && multiset(s) == multiset(t)
    ensures s == t
    decreases |s|
  {
    assert |s| == |multiset(s)| == |multiset(t)| == |t|;
    if |s| > 0 {
      assert s[0] in multiset(t) && t[0] in multiset(s);
      HeadIsLeast(t, s[0]);
      HeadIsLeast(s, t[0]);
      TailSorted(s);
      TailSorted(t);
      assert s[0] == t[0];
      HeadAndTail(s);
      HeadAndTail(t);
      SortedUnique(s[1..], t[1..]);
    }
  }

  /** `[arr[i], arr[j]] = [arr[j], arr[i]]`. */
  method SwapCells(a: array<int>, i: int, j: int)
    requires 0 <= i < a.Length && 0 <= j < a.Length
    modifies a
    ensures a[..] == Swap(old(a[..]), i, j)
  {
    a[i], a[j] := a[j], a[i];
  }

  // ---------------------------------------------------------------- bubble

  /**
   * After a pass over the front `[0, bound)` that only rearranged it and
   * left its largest value last, the sorted back grows by that slot.
   */
  lemma {:induction false} BubbleGrows(before: seq<int>, after: seq<int>, bound: int)
    requires 2 <= bound <= |before|
    requires SortedBetween(before, bound, |before|) && Partitioned(before, bound)
    requires SameOutside(after, before, 0, bound) && multiset(after) == multiset(before)
    requires forall k :: 0 <= k < bound ==> after[k] <= after[bound - 1]
    ensures SortedBetween(after, bound - 1, |after|) && Partitioned(after, bound - 1)
  {
    PermutationOfRange(after, before, 0, bound);
    forall y | bound <= y < |after|
      ensures AllBelow(after, 0, bound, after[y] + 1)
    {
      assert AllBelow(before, 0, bound, before[y] + 1);
      BoundsCarry(after, before, 0, bound, before[y] + 1);
    }
  }

  /**
   * One pass of the inner loop of `bubbleSort` over the unsorted front
   * `[0, bound)`: neighbours out of order are exchanged, which carries the
   * largest value of the front to its last slot.
   */
  method BubblePass(a: array<int>, bound: int)
    requires 2 <= bound <= a.Length
    requires SortedBetween(a[..], bound, a.Length) && Partitioned(a[..], bound)
    modifies a
    ensures SortedBetween(a[..], bound - 1, a.Length) && Partitioned(a[..], bound - 1)
    ensures SameOutside(a[..], old(a[..]), 0, bound)
    ensures multiset(a[..]) == multiset(old(a[..]))
  {
    for j := 0 to bound - 1
      invariant forall k :: 0 <= k <= j ==> a[k] <= a[j]
      invariant SameOutside(a[..], old(a[..]), 0, bound)
      invariant multiset(a[..]) == multiset(old(a[..]))
    {
      if a[j] > a[j + 1] {
        SwapCells(a, j, j + 1);
      }
    }
    BubbleGrows(old(a[..]), a[..], bound);
  }

  /** `bubbleSort`: `n - 1` passes, each over a front one slot shorter. */
  method BubbleSort(a: array<int>)
    modifies a
    ensures Sorted(a[..]) && multiset(a[..]) == multiset(old(a[..]))
  {
    var n := a.Length;
    var i := 0;
    while i < n - 1
      invariant 0 <= i <= n && (n >= 1 ==> i <= n - 1)
      invariant SortedBetween(a[..], n - i, n) && Partitioned(a[..], n - i)
      invariant multiset(a[..]) == multiset(old(a[..]))
    {
      BubblePass(a, n - i);
      i := i + 1;
    }
    if n >= 1 {
      SortedFromParts(a[..], n - i);
    }
  }

  // ----------------------------------------------------------------- quick

  /**
   * `partition(low, high)`: with the value at `high` as pivot, the smaller
   * values are moved to the front of the range and the pivot after them.
   */
  method Partition(a: array<int>, low: int, high: int) returns (p: int)
    requires 0 <= low <= high < a.Length
    modifies a
    ensures low <= p <= high && a[p] == old(a[high])
    ensures AllBelow(a[..], low, p, a[p]) && AllAtLeast(a[..], p + 1, high + 1, a[p])
    ensures SameOutside(a[..], old(a[..]), low, high + 1)
    ensures multiset(a[..]) == multiset(old(a[..]))
  {
    var pivot := a[high];
    var i := low - 1;
    for j := low to high
      invariant low - 1 <= i < j && a[high] == pivot
      invariant AllBelow(a[..], low, i + 1, pivot) && AllAtLeast(a[..], i + 1, j, pivot)
      invariant SameOutside(a[..], old(a[..]), low, high + 1)
      invariant multiset(a[..]) == multiset(old(a[..]))
    {
      if a[j] < pivot {
        i := i + 1;
        SwapCells(a, i, j);
      }
    }
    SwapCells(a, i + 1, high);
    p := i + 1;
  }

  /** The parts around a placed pivot, each sorted, make a sorted range. */
  lemma {:induction false} PivotJoin(s: seq<int>, lo: int, p: int, hi: int)
    requires 0 <= lo <= p < hi <= |s|
    requires SortedBetween(s, lo, p) && SortedBetween(s, p + 1, hi)
    requires AllBelow(s, lo, p, s[p]) && AllAtLeast(s, p + 1, hi, s[p])
    ensures SortedBetween(s, lo, hi)
  {
  }

  /** Rearranging the part before the pivot keeps it below the pivot and leaves the rest in place. */
  lemma {:induction false} QuickLeft(parted: seq<int>, sorted: seq<int>, low: int, p: int, high: int)
    requires 0 <= low <= p <= high < |parted|
    requires AllBelow(parted, low, p, parted[p]) && AllAtLeast(parted, p + 1, high + 1, parted[p])
    requires SameOutside(sorted, parted, low, p) && multiset(sorted) == multiset(parted)
    ensures sorted[p] == parted[p] && AllBelow(sorted, low, p, parted[p])
    ensures AllAtLeast(sorted, p + 1, high + 1, parted[p])
  {
    PermutationOfRange(sorted, parted, low, p);
    BoundsCarry(sorted, parted, low, p, parted[p]);
  }

  /** Rearranging the part after the pivot keeps it at least the pivot and leaves the rest in place. */
  lemma {:induction false} QuickRight(before: seq<int>, sorted: seq<int>, low: int, p: int, high: int)
    requires 0 <= low <= p <= high < |before|
    requires AllBelow(before, low, p, before[p]) && AllAtLeast(before, p + 1, high + 1, before[p])
    requires SortedBetween(before, low, p)
    requires SameOutside(sorted, before, p + 1, high + 1) && multiset(sorted) == multiset(before)
    requires SortedBetween(sorted, p + 1, high + 1)
    ensures SortedBetween(sorted, low, high + 1)
  {
    PermutationOfRange(sorted, before, p + 1, high + 1);
    BoundsCarry(sorted, before, p + 1, high + 1, before[p]);
    assert sorted[p] == before[p];
    SortedOutside(before, sorted, low, p, p + 1, high + 1);
    PivotJoin(sorted, low, p, high + 1);
  }

  /** `sort(low, high)` of `quickSort`: sorts the (possibly empty) range `[low, high]`. */
  method QuickSortRange(a: array<int>, low: int, high: int)
    requires 0 <= low <= high + 1 <= a.Length
    modifies a
    ensures SortedBetween(a[..], low, high + 1)
    ensures SameOutside(a[..], old(a[..]), low, high + 1)
    ensures multiset(a[..]) == multiset(old(a[..]))
    decreases high - low
  {
    if low < high {
      ghost var start := a[..];
      var pi := Partition(a, low, high);
      ghost var parted := a[..];
      QuickSortRange(a, low, pi - 1);
      ghost var leftDone := a[..];
      QuickLeft(parted, leftDone, low, pi, high);
      QuickSortRange(a, pi + 1, high);
      ghost var done := a[..];
      QuickRight(leftDone, done, low, pi, high);
      SameOutsideChain(done, leftDone, parted, start, low, high + 1,
                       pi + 1, high + 1, low, pi, low, high + 1);
    }
  }

  /** `quickSort`: `sort(0, arr.length - 1)`. */
  method QuickSort(a: array<int>)
    modifies a
    ensures Sorted(a[..]) && multiset(a[..]) == multiset(old(a[..]))
  {
    QuickSortRange(a, 0, a.Length - 1);
  }

  // ------------------------------------------------------------- selection

  /** The inner loop of `selectionSort`: the first slot from `i` on holding the least value. */
  method MinIndex(a: array<int>, i: int) returns (m: int)
    requires 0 <= i < a.Length
    ensures i <= m < a.Length
    ensures forall k :: i <= k < a.Length ==> a[m] <= a[k]
    ensures forall k :: i <= k < m ==> a[m] < a[k]
  {
    m := i;
    for j := i + 1 to a.Length
      invariant i <= m < j
      invariant forall k :: i <= k < j ==> a[m] <= a[k]
      invariant forall k :: i <= k < m ==> a[m] < a[k]
    {
      if a[j] < a[m] {
        m := j;
      }
    }
  }

  /**
   * `selectionSort`: after the outer iteration for `i`, the slots `[0, i]`
   * hold the `i + 1` smallest values in ascending order.
   */
  method SelectionSort(a: array<int>)
    modifies a
    ensures Sorted(a[..]) && multiset(a[..]) == multiset(old(a[..]))
  {
    var n := a.Length;
    var i := 0;
    while i < n - 1
      invariant 0 <= i <= n && (n >= 1 ==> i <= n - 1)
      invariant SortedBetween(a[..], 0, i) && Partitioned(a[..], i)
      invariant multiset(a[..]) == multiset(old(a[..]))
    {
      var m := MinIndex(a, i);
      if m != i {
        SwapCells(a, i, m);
      }
      i := i + 1;
    }
    if n >= 1 {
      SortedFromParts(a[..], i);
    }
  }

  // ----------------------------------------------------------------- merge

  /** The merge of two sequences: the smaller head first, the left one on ties. */
  function MergeSeq(l: seq<int>, r: seq<int>): (m: seq<int>)
    ensures |m| == |l| + |r|
    decreases |l| + |r|
  {
    if l == [] then r
    else if r == [] then l
    else if l[0] <= r[0] then [l[0]] + MergeSeq(l[1..], r)
    else [r[0]] + MergeSeq(l, r[1..])
  }

  /** Merging keeps every value of both sides. */
  lemma {:induction false} MergeMultiset(l: seq<int>, r: seq<int>)
    ensures multiset(MergeSeq(l, r)) == multiset(l) + multiset(r)
    decreases |l| + |r|
  {
    if l != [] && r != [] {
      if l[0] <= r[0] {
        MergeMultiset(l[1..], r);
        HeadAndTail(l);
        assert MergeSeq(l, r) == [l[0]] + MergeSeq(l[1..], r);
      } else {
        MergeMultiset(l, r[1..]);
        HeadAndTail(r);
        assert MergeSeq(l, r) == [r[0]] + MergeSeq(l, r[1..]);
      }
    }
  }

  /** The merge starts with the head of one of its sides. */
  lemma MergeHead(l: seq<int>, r: seq<int>)
    requires l != [] || r != []
    ensures var m := MergeSeq(l, r);
      (l != [] && m[0] == l[0]) || (r != [] && m[0] == r[0])
  {
  }

  /** The merge of two sorted sequences is sorted. */
  lemma {:induction false} MergeSorted(l: seq<int>, r: seq<int>)
    requires Sorted(l) && Sorted(r)
    ensures Sorted(MergeSeq(l, r))
    decreases |l| + |r|
  {
    if l != [] && r != [] {
      var m := MergeSeq(l, r);
      if l[0] <= r[0] {
        MergeSorted(l[1..], r);
        MergeHead(l[1..], r);
        HeadBelow(l[0], MergeSeq(l[1..], r));
      } else {
        MergeSorted(l, r[1..]);
        MergeHead(l, r[1..]);
        HeadBelow(r[0], MergeSeq(l, r[1..]));
      }
    }
  }

  /** A value at most the head of a sorted sequence can go in front of it. */
  lemma {:induction false} HeadBelow(x: int, s: seq<int>)
    requires Sorted(s) && (s == [] || x <= s[0])
    ensures Sorted([x] + s)
  {
    var t := [x] + s;
    forall i, j | 0 <= i < j < |t|
      ensures t[i] <= t[j]
    {
      if i > 0 {
        assert t[i] == s[i - 1] && t[j] == s[j - 1];
      } else {
        assert s[0] <= s[j - 1];
      }
    }
  }

  /**
   * One step of the merge from positions `i` and `j` of the two halves: the
   * next value of the merge `m` is the smaller head, and the rest of `m` is
   * the merge of what remains.
   */
  lemma {:induction false} MergeStep(m: seq<int>, l: seq<int>, r: seq<int>, i: int, j: int, i': int, j': int)
    requires 0 <= i < |l| && 0 <= j < |r| && 0 <= i + j <= |m|
    requires m[i + j..] == MergeSeq(l[i..], r[j..])
    requires l[i] <= r[j] ==> i' == i + 1 && j' == j
    requires l[i] > r[j] ==> i' == i && j' == j + 1
    ensures i + j < |m| && m[i + j] == (if l[i] <= r[j] then l[i] else r[j])
    ensures 0 <= i' <= |l| && 0 <= j' <= |r| && m[i' + j'..] == MergeSeq(l[i'..], r[j'..])
  {
    assert l[i..][0] == l[i] && l[i..][1..] == l[i + 1..];
    assert r[j..][0] == r[j] && r[j..][1..] == r[j + 1..];
    assert m[i + j] == m[i + j..][0] && m[i + j + 1..] == m[i + j..][1..];
  }

  /**
   * One iteration of the first loop of `merge`: the smaller of the heads
   * `lhs[i]` and `rhs[j]` (the left one on ties) is written to slot
   * `left + i + j` and its index advances.
   */
  method MergeOne(a: array<int>, left: int, lhs: seq<int>, rhs: seq<int>, ghost m: seq<int>, ghost s: seq<int>,
                  i: int, j: int) returns (i': int, j': int)
    requires 0 <= left && left + |lhs| + |rhs| <= a.Length == |s| && |m| == |lhs| + |rhs|
    requires 0 <= i < |lhs| && 0 <= j < |rhs|
    requires m[i + j..] == MergeSeq(lhs[i..], rhs[j..])
    requires a[..] == Splice(s, left, m[..i + j])
    modifies a
    ensures (i' == i + 1 && j' == j) || (i' == i && j' == j + 1)
    ensures m[i' + j'..] == MergeSeq(lhs[i'..], rhs[j'..])
    ensures a[..] == Splice(s, left, m[..i' + j'])
  {
    var takeLeft := lhs[i] <= rhs[j];
    i', j' := if takeLeft then i + 1 else i, if takeLeft then j else j + 1;
    MergeStep(m, lhs, rhs, i, j, i', j');
    var v := if takeLeft then lhs[i] else rhs[j];
    ghost var before := a[..];
    a[left + i + j] := v;
    assert a[..] == before[left + i + j := m[i + j]];
    SpliceExtend(s, before, left, m, i + j);
  }

  /**
   * The first loop of `merge`: the smaller head of the two copied halves is
   * written to slot `k` (the left one on ties) until one half runs out.
   */
  method MergeFront(a: array<int>, left: int, lhs: seq<int>, rhs: seq<int>) returns (i: int, j: int)
    requires 0 <= left && left + |lhs| + |rhs| <= a.Length
    modifies a
    ensures 0 <= i <= |lhs| && 0 <= j <= |rhs| && (i == |lhs| || j == |rhs|)
    ensures MergeSeq(lhs, rhs)[i + j..] == lhs[i..] + rhs[j..]
    ensures a[..] == Splice(old(a[..]), left, MergeSeq(lhs, rhs)[..i + j])
  {
    ghost var merged := MergeSeq(lhs, rhs);
    i, j := 0, 0;
    while i < |lhs| && j < |rhs|
      invariant 0 <= i <= |lhs| && 0 <= j <= |rhs|
      invariant merged[i + j..] == MergeSeq(lhs[i..], rhs[j..])
      invariant a[..] == Splice(old(a[..]), left, merged[..i + j])
      decreases |lhs| + |rhs| - i - j
    {
      i, j := MergeOne(a, left, lhs, rhs, merged, old(a[..]), i, j);
    }
    MergeWithEmpty(lhs[i..], rhs[j..]);
  }

  /** The second and third loops of `merge`: what is left of one half, copied to slots `k..`. */
  method CopyRest(a: array<int>, k: int, rest: seq<int>)
    requires 0 <= k && k + |rest| <= a.Length
    modifies a
    ensures a[..] == Splice(old(a[..]), k, rest)
  {
    for i := 0 to |rest|
      invariant a[..] == Splice(old(a[..]), k, rest[..i])
    {
      a[k + i] := rest[i];
      assert rest[..i + 1] == rest[..i] + [rest[i]];
    }
    assert rest[..|rest|] == rest;
  }

  /** Once one side is empty, merging is concatenation. */
  lemma MergeWithEmpty(l: seq<int>, r: seq<int>)
    requires l == [] || r == []
    ensures MergeSeq(l, r) == l + r
  {
  }

  /** The three loops of `merge`: the merge of the copied halves written to slots `left..`. */
  method MergeInto(a: array<int>, left: int, lhs: seq<int>, rhs: seq<int>)
    requires 0 <= left && left + |lhs| + |rhs| <= a.Length
    modifies a
    ensures a[..] == Splice(old(a[..]), left, MergeSeq(lhs, rhs))
  {
    ghost var s0 := a[..];
    var i, j := MergeFront(a, left, lhs, rhs);
    ghost var s1 := a[..];
    CopyRest(a, left + i + j, lhs[i..]);
    ghost var s2 := a[..];
    CopyRest(a, left + i + j + |lhs[i..]|, rhs[j..]);
    SpliceSteps(s0, s1, s2, a[..], MergeSeq(lhs, rhs), left, i + j, lhs[i..], rhs[j..]);
  }

  /**
   * `merge(left, middle, right)`: the halves `[left, middle]` and
   * `(middle, right]` copied out and merged back into `[left, right]`.
   */
  method Merge(a: array<int>, left: int, middle: int, right: int)
    requires 0 <= left <= middle < right < a.Length
    modifies a
    ensures a[..] == Splice(old(a[..]), left, MergeSeq(old(a[left..middle + 1]), old(a[middle + 1..right + 1])))
  {
    var lhs := a[left..middle + 1];
    var rhs := a[middle + 1..right + 1];
    MergeInto(a, left, lhs, rhs);
  }

  /** `SortedBetween` on a range is `Sorted` on the slice. */
  lemma {:induction false} SortedSlice(s: seq<int>, lo: int, hi: int)
    requires 0 <= lo <= hi <= |s|
    ensures SortedBetween(s, lo, hi) <==> Sorted(s[lo..hi])
  {
    if SortedBetween(s, lo, hi) {
      forall i, j | 0 <= i < j < hi - lo
        ensures s[lo..hi][i] <= s[lo..hi][j]
      {
        assert s[lo..hi][i] == s[lo + i] && s[lo..hi][j] == s[lo + j];
      }
    }
    if Sorted(s[lo..hi]) {
      forall i, j | lo <= i < j < hi
        ensures s[i] <= s[j]
      {
        assert s[i] == s[lo..hi][i - lo] && s[j] == s[lo..hi][j - lo];
      }
    }
  }

  /** A change confined to slots from `hi` on leaves the order of `[lo, hi)` alone. */
  lemma SortedOutside(s: seq<int>, t: seq<int>, lo: int, hi: int, lo2: int, hi2: int)
    requires 0 <= lo <= hi <= lo2 && hi <= |s| && SortedBetween(s, lo, hi) && SameOutside(t, s, lo2, hi2)
    ensures SortedBetween(t, lo, hi)
  {
  }

  /** Merging two sorted neighbouring ranges in place sorts their union. */
  lemma {:induction false} MergedRangeSorted(before: seq<int>, after: seq<int>, left: int, middle: int, right: int)
    requires 0 <= left <= middle < right < |before| && |after| == |before|
    requires SortedBetween(before, left, middle + 1) && SortedBetween(before, middle + 1, right + 1)
    requires after[left..right + 1] == MergeSeq(before[left..middle + 1], before[middle + 1..right + 1])
    ensures SortedBetween(after, left, right + 1)
  {
    SortedSlice(before, left, middle + 1);
    SortedSlice(before, middle + 1, right + 1);
    MergeSorted(before[left..middle + 1], before[middle + 1..right + 1]);
    SortedSlice(after, left, right + 1);
  }

  /** Refilling a range with the values of its two halves keeps the values of the whole sequence. */
  lemma {:induction false} MergedRangeValues(before: seq<int>, after: seq<int>, left: int, middle: int, right: int)
    requires 0 <= left <= middle < right < |before| && SameOutside(after, before, left, right + 1)
    requires multiset(after[left..right + 1]) == multiset(before[left..middle + 1]) + multiset(before[middle + 1..right + 1])
    ensures multiset(after) == multiset(before)
  {
    AdjacentSlices(before, left, middle + 1, right + 1);
    RangePermutation(after, before, left, right + 1);
  }

  /** `sort(left, right)` of `mergeSort`: sorts the (possibly empty) range `[left, right]`. */
  method MergeSortRange(a: array<int>, left: int, right: int)
    requires 0 <= left <= right + 1 <= a.Length
    modifies a
    ensures SortedBetween(a[..], left, right + 1)
    ensures SameOutside(a[..], old(a[..]), left, right + 1)
    ensures multiset(a[..]) == multiset(old(a[..]))
    decreases right - left
  {
    if left < right {
      ghost var start := a[..];
      var middle := (left + right) / 2;
      MergeSortRange(a, left, middle);
      ghost var first := a[..];
      MergeSortRange(a, middle + 1, right);
      ghost var halves := a[..];
      SortedOutside(first, halves, left, middle + 1, middle + 1, right + 1);
      Merge(a, left, middle, right);
      ghost var after := a[..];
      SpliceRead(halves, left, MergeSeq(halves[left..middle + 1], halves[middle + 1..right + 1]));
      MergedRangeSorted(halves, after, left, middle, right);
      MergeMultiset(halves[left..middle + 1], halves[middle + 1..right + 1]);
      MergedRangeValues(halves, after, left, middle, right);
      SameOutsideChain(after, halves, first, start, left, right + 1,
                       left, right + 1, middle + 1, right + 1, left, middle + 1);
    }
  }

  /** `mergeSort`: `sort(0, arr.length - 1)`. */
  method MergeSort(a: array<int>)
    modifies a
    ensures Sorted(a[..]) && multiset(a[..]) == multiset(old(a[..]))
  {
    MergeSortRange(a, 0, a.Length - 1);
  }

  // ------------------------------------------------------------- dispatch

  /** The entries of the algorithm selector. */
  datatype SortKind = BubbleKind | QuickKind | SelectionKind | MergeKind

  /** The value the selector stores for each entry. */
  function KindName(k: SortKind): string
  {
    match k
    case BubbleKind => "bubble"
    case QuickKind => "quick"
    case SelectionKind => "selection"
    case MergeKind => "merge"
  }

  /** The `switch` of `startSorting`: the four names, any other one is `default`. */
  function KindOf(name: string): (k: Option<SortKind>)
    ensures k.Some? ==> KindName(k.value) == name
  {
    if name == "bubble" then Some(BubbleKind)
    else if name == "quick" then Some(QuickKind)
    else if name == "selection" then Some(SelectionKind)
    else if name == "merge" then Some(MergeKind)
    else None
  }

  /** Every entry of the selector reaches its own algorithm. */
  lemma KindOfName(k: SortKind)
    ensures KindOf(KindName(k)) == Some(k)
  {
  }

  /**
   * `startSorting`: runs the selected algorithm on the displayed array; a
   * name outside the four returns before sorting anything.
   */
  method StartSorting(a: array<int>, name: string) returns (started: bool)
    modifies a
    ensures started <==> KindOf(name).Some?
    ensures started ==> Sorted(a[..]) && multiset(a[..]) == multiset(old(a[..]))
    ensures !started ==> a[..] == old(a[..])
  {
    var kind := KindOf(name);
    if kind.None? {
      return false;
    }
    match kind.value {
      case BubbleKind => BubbleSort(a);
      case QuickKind => QuickSort(a);
      case SelectionKind => SelectionSort(a);
      case MergeKind => MergeSort(a);
    }
    started := true;
  }

  // --------------------------------------------------------- custom array

  /** `.map(Number)`. */
  function NumbersOf(pieces: seq<string>): (ns: seq<Num>)
    ensures |ns| == |pieces|
  {
    seq(|pieces|, i requires 0 <= i < |pieces| => NumberOf(pieces[i]))
  }

  /** `.filter(Boolean)`: the non-zero numbers, in order. */
  function KeepTruthy(ns: seq<Num>): (r: seq<int>)
    ensures |r| <= |ns|
    ensures forall k :: 0 <= k < |r| ==> r[k] != 0
    decreases |ns|
  {
    if ns == [] then []
    else (if Truthy(ns[0]) then [ns[0].value] else []) + KeepTruthy(ns[1..])
  }

  /** A value survives exactly when it is not zero and was among the numbers. */
  lemma {:induction false} KeepTruthyMembers(ns: seq<Num>, x: int)
    ensures x in KeepTruthy(ns) <==> x != 0 && Int(x) in ns
    decreases |ns|
  {
    if ns != [] {
      KeepTruthyMembers(ns[1..], x);
      assert ns == [ns[0]] + ns[1..];
    }
  }

  /** The values of the custom-array text: `customArray.split(",").map(Number).filter(Boolean)`. */
  function CustomValues(text: string): (r: seq<int>)
    // `filter(Boolean)` drops zeros, and there is at most one value per piece
    ensures forall k :: 0 <= k < |r| ==> r[k] != 0
    ensures |r| <= |Split(text, ',')|
  {
    KeepTruthy(NumbersOf(Split(text, ',')))
  }

  /** `applyCustomArray`: the custom values replace the array unless there are none. */
  function ApplyCustomArray(current: seq<int>, text: string): (r: seq<int>)
    ensures r == current || (|r| > 0 && forall k :: 0 <= k < |r| ==> r[k] != 0)
  {
    var values := CustomValues(text);
    if |values| > 0 then values else current
  }

  /** Some piece reads as `x` to `Number`. */
  predicate SomePieceReads(pieces: seq<string>, x: int)
  {
    exists i :: 0 <= i < |pieces| && NumberOf(pieces[i]) == Int(x)
  }

  /** A number is among the numbers of the pieces exactly when some piece reads as it. */
  lemma {:induction false} NumbersOfMembers(pieces: seq<string>, x: int)
    ensures Int(x) in NumbersOf(pieces) <==> SomePieceReads(pieces, x)
  {
    var ns := NumbersOf(pieces);
    if Int(x) in ns {
      var i :| 0 <= i < |ns| && ns[i] == Int(x);
      assert NumberOf(pieces[i]) == Int(x);
    }
    if exists i :: 0 <= i < |pieces| && NumberOf(pieces[i]) == Int(x) {
      var i :| 0 <= i < |pieces| && NumberOf(pieces[i]) == Int(x);
      assert ns[i] == Int(x);
    }
  }

  /**
   * The custom values are the non-zero numbers some comma-separated piece
   * reads as.
   */
  lemma {:induction false} CustomValueMembers(text: string, x: int)
    ensures x in CustomValues(text) <==> x != 0 && SomePieceReads(Split(text, ','), x)
  {
    var pieces := Split(text, ',');
    KeepTruthyMembers(NumbersOf(pieces), x);
    NumbersOfMembers(pieces, x);
  }

  /** Text with no piece that reads as a non-zero number leaves the array alone. */
  lemma {:induction false} NoValuesKeepArray(current: seq<int>, text: string)
    requires forall i :: 0 <= i < |Split(text, ',')| ==> !Truthy(NumberOf(Split(text, ',')[i]))
    ensures ApplyCustomArray(current, text) == current
  {
    var values := CustomValues(text);
    if |values| > 0 {
      CustomValueMembers(text, values[0]);
    }
  }

  /** `String(x)` of each value. */
  function Decimals(xs: seq<nat>): (ds: seq<string>)
    ensures |ds| == |xs|
  {
    seq(|xs|, i requires 0 <= i < |xs| => Decimal(xs[i]))
  }

  /** Positive numbers survive `.filter(Boolean)`, in order. */
  lemma {:induction false} KeepTruthyInts(xs: seq<nat>, ns: seq<Num>)
    requires |ns| == |xs| && forall k :: 0 <= k < |xs| ==> xs[k] > 0 && ns[k] == Int(xs[k])
    ensures KeepTruthy(ns) == xs
    decreases |xs|
  {
    if xs != [] {
      KeepTruthyInts(xs[1..], ns[1..]);
      assert [xs[0] as int] + xs[1..] == xs;
    }
  }

  /** Typing positive numbers separated by commas puts exactly those numbers on display. */
  lemma {:induction false} CustomArrayRoundTrip(current: seq<int>, xs: seq<nat>)
    requires |xs| >= 1 && forall k :: 0 <= k < |xs| ==> xs[k] > 0
    ensures ApplyCustomArray(current, Join(Decimals(xs), ",")) == xs
  {
    var ds := Decimals(xs);
    forall i | 0 <= i < |ds|
      ensures ',' !in ds[i]
    {
      assert AllDigits(ds[i]);
      assert !IsDigit(',');
    }
    JoinSplit(ds, ',');
    assert Join(ds, ",") == Join(ds, [',']);
    forall k | 0 <= k < |xs|
      ensures NumbersOf(ds)[k] == Int(xs[k])
    {
      NumberOfDecimal(xs[k]);
    }
    KeepTruthyInts(xs, NumbersOf(ds));
  }
}
