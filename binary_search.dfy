/**
 * `BinarySearchVisualizer.tsx`: a sorted array of numbers, a target typed by
 * the user, and a binary search whose window `left..right` and probe `mid`
 * are shown on screen. The component's state becomes the fields of one
 * object; `binarySearch`, `resetSearch` and `generateSortedArray` are methods
 * (the `sleep` between probes is presentation).
 */
module BinarySearch {
  import opened Wrappers
  import opened Numbers
  import opened Sorting

  /**
   * The outcome of the search loop started on the window `[l, r]`: the index
   * at which a probe met the target, or `None` once the window is empty. A
   * `NaN` target equals nothing and is never below a value, so every probe
   * moves `r` down.
   */
  function Probe(s: seq<int>, t: Num, l: int, r: int): (res: Option<int>)
    requires 0 <= l && r < |s|
    ensures res.Some? ==> l <= res.value <= r && Int(s[res.value]) == t
    decreases r - l + 1
  {
    if l > r then None
    else
      var m := (l + r) / 2;
      if Int(s[m]) == t then Some(m)
      else if t.Int? && s[m] < t.value then Probe(s, t, m + 1, r)
      else Probe(s, t, l, m - 1)
  }

  /** The target lies outside the window: below it everything is smaller, above it everything larger. */
  predicate Outside(s: seq<int>, t: Num, l: int, r: int)
  {
    t.Int? ==> (forall k :: 0 <= k < l && k < |s| ==> s[k] < t.value)
               && (forall k :: r < k < |s| && 0 <= k ==> t.value < s[k])
  }

  /** On a sorted array, a window outside of which the target is not is narrowed keeping that so. */
  lemma {:induction false} ProbeMisses(s: seq<int>, t: Num, l: int, r: int)
    requires 0 <= l && r < |s| && Sorted(s) && Outside(s, t, l, r)
    ensures Probe(s, t, l, r).None? ==> !(t.Int? && t.value in s)
    decreases r - l + 1
  {
    if l <= r {
      var m := (l + r) / 2;
      if Int(s[m]) != t {
        if t.Int? && s[m] < t.value {
          assert forall k :: 0 <= k <= m ==> s[k] <= s[m];
          ProbeMisses(s, t, m + 1, r);
        } else {
          assert t.Int? ==> forall k :: m <= k < |s| ==> s[m] <= s[k];
          ProbeMisses(s, t, l, m - 1);
        }
      }
    } else if t.Int? {
      assert forall k :: 0 <= k < |s| ==> s[k] != t.value;
    }
  }

  /** On a sorted array the search finds the target exactly when the array holds it. */
  lemma BinarySearchCorrect(s: seq<int>, t: Num)
    requires Sorted(s)
    ensures Probe(s, t, 0, |s| - 1).Some? <==> t.Int? && t.value in s
    ensures Probe(s, t, 0, |s| - 1).Some? ==> s[Probe(s, t, 0, |s| - 1).value] == t.value
  {
    ProbeMisses(s, t, 0, |s| - 1);
  }

  /** The colour of bar `index`: the probe, the current window, the rest. */
  datatype BarColor = Yellow500 | Blue500 | Gray300

  function BarColorOf(index: int, mid: int, left: int, right: int): (c: BarColor)
    ensures c == Yellow500 <==> index == mid
    ensures c == Blue500 <==> index != mid && left <= index <= right
  {
    if index == mid then Yellow500 else if left <= index <= right then Blue500 else Gray300
  }

  class BinarySearchVisualizer {
    var arr: seq<int>
    var target: Num
    var left: int
    var right: int
    var mid: int
    var found: Option<bool>
    var isRunning: bool

    /** The first render: every field at its `useState` default. */
    constructor ()
      ensures arr == [] && target == Int(0) && left == 0 && right == 0 && mid == 0
      ensures found == None && !isRunning
    {
      arr := [];
      target := Int(0);
      left, right, mid := 0, 0, 0;
      found := None;
      isRunning := false;
    }

    /** The target input: `setTarget(Number(e.target.value))`. */
    method SetTarget(text: string)
      modifies this`target
      ensures target == NumberOf(text)
    {
      target := NumberOf(text);
    }

    /** `resetSearch`: the window covers the whole array again and the result is cleared. */
    method ResetSearch()
      modifies this`left, this`right, this`mid, this`found, this`isRunning
      ensures left == 0 && right == |arr| - 1 && mid == 0 && found == None && !isRunning
    {
      left := 0;
      right := |arr| - 1;
      mid := 0;
      found := None;
      isRunning := false;
    }

    /**
     * `generateSortedArray` with the drawn numbers as `values`: they are
     * sorted ascending (any sort gives the same result, see `SortedUnique`)
     * and the search is reset on the new array. This is the corrected
     * handler: the source's memoised callback runs the first render's
     * `resetSearch`, which leaves `right` at -1
     * (`GenerateSortedArrayAsWritten`).
     */
    method GenerateSortedArray(values: seq<int>)
      modifies this
      ensures Sorted(arr) && multiset(arr) == multiset(values)
      ensures left == 0 && right == |arr| - 1 && mid == 0 && found == None && !isRunning
      ensures forall i :: 0 < i < |arr| ==> BarColorOf(i, mid, left, right) == Blue500
      ensures target == old(target)
    {
      var a := SortedCopy(values);
      arr := a;
      ResetSearch();
    }

    /**
     * `generateSortedArray` as written: it is memoised with no dependencies,
     * so the `resetSearch` it calls is the one of the first render, whose
     * `array` is still `[]`; its `setRight(-1)` comes after
     * `setRight(newArray.length - 1)` and wins.
     */
    method GenerateSortedArrayAsWritten(values: seq<int>)
      modifies this
      ensures Sorted(arr) && multiset(arr) == multiset(values)
      ensures left == 0 && right == -1 && mid == 0 && found == None && !isRunning
      ensures forall i :: 0 < i < |arr| ==> BarColorOf(i, mid, left, right) == Gray300
      ensures target == old(target)
    {
      var a := SortedCopy(values);
      arr := a;
      right := |a| - 1;
      left := 0;
      var firstRenderArray: seq<int> := [];
      right := |firstRenderArray| - 1;
      mid := 0;
      found := None;
      isRunning := false;
    }

    /**
     * `binarySearch`: probes the middle of the window, stops at the target
     * and otherwise halves the window towards it. The fields show the last
     * window and probe; `found` is the outcome.
     */
    method Search()
      modifies this`left, this`right, this`mid, this`found, this`isRunning
      ensures found.Some? && !isRunning
      ensures found.value <==> Probe(arr, target, 0, |arr| - 1).Some?
      ensures found.value ==> Probe(arr, target, 0, |arr| - 1) == Some(mid)
      ensures arr != [] ==> 0 <= left <= mid <= right < |arr|
      ensures arr == [] ==> left == old(left) && right == old(right) && mid == old(mid)
    {
      isRunning := true;
      found := None;
      var s, t := arr, target;
      var l, r := 0, |s| - 1;
      ghost var outcome := Probe(s, t, 0, |s| - 1);
      while l <= r
        invariant 0 <= l && -1 <= r < |s|
        invariant Probe(s, t, l, r) == outcome
        invariant (l, r) != (0, |s| - 1) ==> 0 <= left <= mid <= right < |s|
        invariant s == [] ==> left == old(left) && right == old(right) && mid == old(mid)
        decreases r - l
      {
        left := l;
        right := r;
        var m, hit, l', r' := Halve(s, t, l, r);
        mid := m;
        if hit {
          found := Some(true);
          isRunning := false;
          return;
        }
        l, r := l', r';
      }
      assert outcome == None;
      found := Some(false);
      isRunning := false;
    }
  }

  /**
   * One probe of the non-empty window `[l, r]`: whether the middle holds the
   * target, and otherwise the half of the window still to search.
   */
  method Halve(s: seq<int>, t: Num, l: int, r: int) returns (m: int, hit: bool, l': int, r': int)
    requires 0 <= l <= r < |s|
    ensures l <= m <= r && m == (l + r) / 2
    ensures hit <==> Int(s[m]) == t
    ensures hit ==> Probe(s, t, l, r) == Some(m)
    ensures !hit ==> 0 <= l' && -1 <= r' < |s| && r' - l' < r - l && Probe(s, t, l', r') == Probe(s, t, l, r)
  {
    m := (l + r) / 2;
    ProbeStep(s, t, l, r);
    hit := Int(s[m]) == t;
    if t.Int? && s[m] < t.value {
      l', r' := m + 1, r;
    } else {
      l', r' := l, m - 1;
    }
  }

  /** One probe of a non-empty window. */
  lemma ProbeStep(s: seq<int>, t: Num, l: int, r: int)
    requires 0 <= l <= r < |s|
    ensures var m := (l + r) / 2;
            Probe(s, t, l, r) == if Int(s[m]) == t then Some(m)
                                 else if t.Int? && s[m] < t.value then Probe(s, t, m + 1, r)
                                 else Probe(s, t, l, m - 1)
  {
  }

  /** `.sort((a, b) => a - b)` on a copy of the drawn numbers. */
  method SortedCopy(values: seq<int>) returns (s: seq<int>)
    ensures Sorted(s) && multiset(s) == multiset(values)
  {
    var a := new int[|values|](i requires 0 <= i < |values| => values[i]);
    assert a[..] == values;
    MergeSort(a);
    s := a[..];
  }

  /**
   * After a new array as written, no bar but the first is drawn in the
   * window colour; with the window reset to the whole array, every bar but
   * the probe is.
   */
  lemma NewArrayWindow(len: int, index: int)
    requires 0 < index < len
    ensures BarColorOf(index, 0, 0, -1) == Gray300
    ensures BarColorOf(index, 0, 0, len - 1) == Blue500
  {
  }
}
