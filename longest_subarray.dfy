/**
 * `LongestSubarraySumKVisualizer.tsx`: a sliding window `[left, right)` over
 * an array of numbers, its running sum, and the longest window seen whose
 * sum is the target `k`. Each timer tick shrinks the window while its sum is
 * too large, records a window whose sum is `k`, and otherwise extends it.
 * The component's state becomes the fields of one object; the timer is an
 * explicit `Tick`. The numbers are JavaScript numbers read with `Number`, so
 * `NaN` is a value the window can hold.
 */
module LongestSubarray {
  import opened Numbers
  import opened Text
  import opened Sorting

  /** `arr[i]`, which is `undefined`, and so `NaN` in arithmetic, past the array. */
  function At(arr: seq<Num>, i: int): Num
  {
    if 0 <= i < |arr| then arr[i] else NaN
  }

  /** `+` and `-` on numbers: `NaN` absorbs. */
  function Add(a: Num, b: Num): (c: Num)
    ensures c.Int? <==> a.Int? && b.Int?
  {
    if a.Int? && b.Int? then Int(a.value + b.value) else NaN
  }

  function Sub(a: Num, b: Num): (c: Num)
    ensures c.Int? <==> a.Int? && b.Int?
  {
    if a.Int? && b.Int? then Int(a.value - b.value) else NaN
  }

  /** `a > b` and `a === b`: false whenever `NaN` takes part. */
  predicate Greater(a: Num, b: Num)
  {
    a.Int? && b.Int? && a.value > b.value
  }

  predicate Equal(a: Num, b: Num)
  {
    a.Int? && b.Int? && a.value == b.value
  }

  /** The sum of `arr[l..r)`, added from the left as the window grows. */
  function WindowSum(arr: seq<Num>, l: int, r: int): Num
    requires 0 <= l <= r <= |arr|
    decreases r - l
  {
    if l == r then Int(0) else Add(WindowSum(arr, l, r - 1), arr[r - 1])
  }

  /** Taking the first element off a window whose sum is a number leaves the sum of the rest. */
  lemma {:induction false} DropFirst(arr: seq<Num>, l: int, r: int)
    requires 0 <= l < r <= |arr| && WindowSum(arr, l, r).Int?
    ensures arr[l].Int? && WindowSum(arr, l + 1, r) == Sub(WindowSum(arr, l, r), arr[l])
    decreases r - l
  {
    if r > l + 1 {
      DropFirst(arr, l, r - 1);
    }
  }

  /** The state the timer works on. */
  datatype Window = Window(left: int, right: int, sum: Num, maxLength: int, running: bool)

  /** The window lies inside the array and `sum` is its sum. */
  predicate WindowInv(arr: seq<Num>, w: Window)
  {
    0 <= w.left <= w.right <= |arr| && w.sum == WindowSum(arr, w.left, w.right) && w.maxLength >= 0
  }

  /** `step`: the next element joins the window, or at the end of the array the run stops. */
  function Step(arr: seq<Num>, w: Window): (r: Window)
    ensures WindowInv(arr, w) ==> WindowInv(arr, r)
    ensures w.right < |arr| ==> r.right == w.right + 1 && r.left == w.left && r.running == w.running
    ensures w.right >= |arr| ==> r == w.(running := false)
    ensures r.maxLength == w.maxLength
  {
    if w.right < |arr| then w.(sum := Add(w.sum, At(arr, w.right)), right := w.right + 1)
    else w.(running := false)
  }

  /**
   * One tick of the timer: a window whose sum exceeds `k` loses its first
   * element; otherwise a window whose sum is `k` is recorded, and the
   * window is extended.
   */
  function TickOf(arr: seq<Num>, k: Num, w: Window): (r: Window)
    // the recorded length never shrinks, and a stopped run stays stopped
    ensures r.maxLength >= w.maxLength
    ensures r.running ==> w.running
  {
    if !w.running then w
    else if Greater(w.sum, k) && w.left < w.right then w.(sum := Sub(w.sum, At(arr, w.left)), left := w.left + 1)
    else if Equal(w.sum, k) then Step(arr, w.(maxLength := if w.maxLength >= w.right - w.left then w.maxLength else w.right - w.left))
    else Step(arr, w)
  }

  /**
   * A tick keeps the window inside the array with its sum; the recorded
   * length never shrinks and changes only to the length of a window with
   * sum `k`; shrinking comes first; a run goes on only by moving one end of
   * the window by one, and stops only at the end of the array.
   */
  lemma TickKeepsWindow(arr: seq<Num>, k: Num, w: Window)
    requires WindowInv(arr, w)
    ensures var r := TickOf(arr, k, w);
            WindowInv(arr, r)
            && r.maxLength >= w.maxLength
            && (r.maxLength != w.maxLength ==> w.running && Equal(w.sum, k) && r.maxLength == w.right - w.left)
            && (w.running && Greater(w.sum, k) && w.left < w.right ==> r.left == w.left + 1 && r.right == w.right && r.running)
            && (r.running ==> w.running && r.left + r.right == w.left + w.right + 1)
            && (w.running && !r.running ==> w.right == |arr| && (r.left, r.right) == (w.left, w.right))
  {
    if w.running && Greater(w.sum, k) && w.left < w.right {
      DropFirst(arr, w.left, w.right);
    }
  }

  /** `t` ticks. */
  function Iterate(arr: seq<Num>, k: Num, w: Window, t: nat): Window
    decreases t
  {
    if t == 0 then w else Iterate(arr, k, TickOf(arr, k, w), t - 1)
  }

  lemma {:induction false} IterateStopped(arr: seq<Num>, k: Num, w: Window, t: nat)
    requires !w.running
    ensures Iterate(arr, k, w, t) == w
    decreases t
  {
    if t > 0 {
      IterateStopped(arr, k, w, t - 1);
    }
  }

  /** Every run stops: each tick that does not stop it moves an end of the window, and there are `2n` such moves. */
  lemma {:induction false} RunStops(arr: seq<Num>, k: Num, w: Window, t: nat)
    requires WindowInv(arr, w) && t >= 2 * |arr| - w.left - w.right + 1
    ensures !Iterate(arr, k, w, t).running
    decreases t
  {
    if !w.running {
      IterateStopped(arr, k, w, t);
    } else {
      var next := TickOf(arr, k, w);
      TickKeepsWindow(arr, k, w);
      if next.running {
        RunStops(arr, k, next, t - 1);
      } else {
        IterateStopped(arr, k, next, t - 1);
      }
    }
  }

  // ----- the window finds the longest sub-array on non-negative numbers -----

  predicate NonNegative(arr: seq<Num>)
  {
    forall i :: 0 <= i < |arr| ==> arr[i].Int? && arr[i].value >= 0
  }

  /** On non-negative numbers every window sum is a non-negative number. */
  lemma {:induction false} SumNonNegative(arr: seq<Num>, l: int, r: int)
    requires NonNegative(arr) && 0 <= l <= r <= |arr|
    ensures WindowSum(arr, l, r).Int? && WindowSum(arr, l, r).value >= 0
    decreases r - l
  {
    if l < r {
      SumNonNegative(arr, l, r - 1);
    }
  }

  /** On non-negative numbers a window's sum is at least that of any window it ends with. */
  lemma {:induction false} SumShrinks(arr: seq<Num>, l: int, m: int, r: int)
    requires NonNegative(arr) && 0 <= l <= m <= r <= |arr|
    ensures WindowSum(arr, m, r).Int? && WindowSum(arr, l, r).Int?
    ensures WindowSum(arr, m, r).value <= WindowSum(arr, l, r).value
    decreases r - m
  {
    if m == r {
      SumNonNegative(arr, l, r);
    } else {
      SumShrinks(arr, l, m, r - 1);
    }
  }

  /** `m` is the length of some window with sum `k`, or 0. */
  ghost predicate Attained(arr: seq<Num>, k: Num, m: int)
  {
    m == 0 || exists l, r :: 0 <= l <= r <= |arr| && r - l == m && Equal(WindowSum(arr, l, r), k)
  }

  /** `m` is at least the length of every window with sum `k` that ends before `end`. */
  ghost predicate CoversBefore(arr: seq<Num>, k: Num, m: int, end: int)
  {
    forall l, r :: 0 <= l <= r < end && r <= |arr| && Equal(WindowSum(arr, l, r), k) ==> r - l <= m
  }

  /** `m` is the length of the longest window with sum `k`, or 0 when there is none. */
  ghost predicate Longest(arr: seq<Num>, k: Num, m: int)
  {
    Attained(arr, k, m) && CoversBefore(arr, k, m, |arr| + 1)
  }

  /**
   * What a run keeps on non-negative numbers: every window ending at
   * `right` and starting before `left` has a sum above `k`, and the
   * recorded length is attained and covers every window ending before
   * `right`.
   */
  ghost predicate SearchInv(arr: seq<Num>, k: Num, w: Window)
  {
    WindowInv(arr, w) && NonNegative(arr)
    && (forall l :: 0 <= l < w.left ==> Greater(WindowSum(arr, l, w.right), k))
    && CoversBefore(arr, k, w.maxLength, w.right)
    && Attained(arr, k, w.maxLength)
  }

  /** Before any tick, with the window empty at the start. */
  lemma StartSearch(arr: seq<Num>, k: Num)
    requires NonNegative(arr)
    ensures SearchInv(arr, k, Window(0, 0, Int(0), 0, true))
  {
  }

  /**
   * No window ending at `right` with sum `k` is longer than the current
   * one, and the current one has sum `k` only when its sum equals `k`.
   */
  lemma AtRight(arr: seq<Num>, k: Num, w: Window)
    requires SearchInv(arr, k, w) && !(Greater(w.sum, k) && w.left < w.right)
    ensures forall l :: 0 <= l <= w.right && Equal(WindowSum(arr, l, w.right), k) ==> Equal(w.sum, k) && w.right - l <= w.right - w.left
  {
    forall l | 0 <= l <= w.right && Equal(WindowSum(arr, l, w.right), k)
      ensures Equal(w.sum, k) && w.right - l <= w.right - w.left
    {
      if l >= w.left {
        SumShrinks(arr, w.left, l, w.right);
        if w.left == w.right {
          assert l == w.left;
        }
      }
    }
  }

  /** Recording a window with sum `k` and moving on keeps the search invariant. */
  lemma RecordKeeps(arr: seq<Num>, k: Num, w: Window)
    requires SearchInv(arr, k, w) && w.running && !(Greater(w.sum, k) && w.left < w.right)
    ensures var r := TickOf(arr, k, w);
            r.right < |arr| + 1 ==> CoversBefore(arr, k, r.maxLength, w.right + 1)
  {
    AtRight(arr, k, w);
    var r := TickOf(arr, k, w);
    forall l, e | 0 <= l <= e < w.right + 1 && e <= |arr| && Equal(WindowSum(arr, l, e), k)
      ensures e - l <= r.maxLength
    {
      if e == w.right {
        assert Equal(w.sum, k);
      }
    }
  }

  /** Extending the window keeps every earlier start above `k`. */
  lemma ExtendKeeps(arr: seq<Num>, k: Num, w: Window, next: int)
    requires SearchInv(arr, k, w) && next == w.right + 1 <= |arr|
    ensures forall l :: 0 <= l < w.left ==> Greater(WindowSum(arr, l, next), k)
  {
    forall l | 0 <= l < w.left
      ensures Greater(WindowSum(arr, l, next), k)
    {
      assert Greater(WindowSum(arr, l, w.right), k);
    }
  }

  /** The recorded length after a tick is still attained. */
  lemma RecordAttained(arr: seq<Num>, k: Num, w: Window)
    requires SearchInv(arr, k, w)
    ensures Attained(arr, k, TickOf(arr, k, w).maxLength)
  {
    TickKeepsWindow(arr, k, w);
    var r := TickOf(arr, k, w);
    if r.maxLength != w.maxLength {
      assert w.right - w.left == r.maxLength && Equal(WindowSum(arr, w.left, w.right), k);
    }
  }

  /**
   * A tick keeps the search invariant, and the tick that stops the run
   * leaves the length of the longest window with sum `k` recorded.
   */
  lemma TickKeepsSearch(arr: seq<Num>, k: Num, w: Window)
    requires SearchInv(arr, k, w) && w.running
    ensures SearchInv(arr, k, TickOf(arr, k, w))
    ensures !TickOf(arr, k, w).running ==> Longest(arr, k, TickOf(arr, k, w).maxLength)
  {
    TickKeepsWindow(arr, k, w);
    RecordAttained(arr, k, w);
    var r := TickOf(arr, k, w);
    if Greater(w.sum, k) && w.left < w.right {
      assert r.left == w.left + 1 && r.right == w.right;
      assert forall l :: 0 <= l < r.left ==> Greater(WindowSum(arr, l, r.right), k) by {
        forall l | 0 <= l < r.left
          ensures Greater(WindowSum(arr, l, r.right), k)
        {
          if l < w.left {
            assert Greater(WindowSum(arr, l, w.right), k);
          }
        }
      }
    } else {
      RecordKeeps(arr, k, w);
      if w.right < |arr| {
        ExtendKeeps(arr, k, w, w.right + 1);
      }
    }
  }

  /** Ticks keep the search invariant, and a stopped run keeps its answer. */
  lemma {:induction false} IterateSearch(arr: seq<Num>, k: Num, w: Window, t: nat)
    requires SearchInv(arr, k, w) && (w.running || Longest(arr, k, w.maxLength))
    ensures var r := Iterate(arr, k, w, t); r.running || Longest(arr, k, r.maxLength)
    decreases t
  {
    if t > 0 {
      if w.running {
        TickKeepsSearch(arr, k, w);
        IterateSearch(arr, k, TickOf(arr, k, w), t - 1);
      } else {
        IterateStopped(arr, k, w, t);
      }
    }
  }

  /**
   * On an array of non-negative numbers, a run started on an empty window
   * stops within `2n + 1` ticks, and then `maxLength` is the length of the
   * longest sub-array whose sum is `k`, or 0 when there is none.
   */
  lemma RunFindsLongest(arr: seq<Num>, k: Num)
    requires NonNegative(arr)
    ensures var r := Iterate(arr, k, Window(0, 0, Int(0), 0, true), 2 * |arr| + 1);
            !r.running && Longest(arr, k, r.maxLength)
  {
    var w := Window(0, 0, Int(0), 0, true);
    StartSearch(arr, k);
    RunStops(arr, k, w, 2 * |arr| + 1);
    IterateSearch(arr, k, w, 2 * |arr| + 1);
  }

  // ----- the component -----

  class LongestSubarraySumKVisualizer {
    var arr: seq<Num>
    var k: Num
    var left: int
    var right: int
    var currentSum: Num
    var maxLength: int
    var isRunning: bool

    function State(): Window
      reads this
    {
      Window(left, right, currentSum, maxLength, isRunning)
    }

    /** The first render: the array `[10, 5, 2, 7, 1, 9]`, `k = 15`, an empty window, paused. */
    constructor ()
      ensures arr == [Int(10), Int(5), Int(2), Int(7), Int(1), Int(9)] && k == Int(15)
      ensures State() == Window(0, 0, Int(0), 0, false) && WindowInv(arr, State())
    {
      arr := [Int(10), Int(5), Int(2), Int(7), Int(1), Int(9)];
      k := Int(15);
      left, right := 0, 0;
      currentSum := Int(0);
      maxLength := 0;
      isRunning := false;
    }

    /** `reset`: an empty window at the start, nothing recorded, paused; the array and `k` stay. */
    method Reset()
      modifies this`left, this`right, this`currentSum, this`maxLength, this`isRunning
      ensures State() == Window(0, 0, Int(0), 0, false) && WindowInv(arr, State())
    {
      left, right := 0, 0;
      currentSum := Int(0);
      maxLength := 0;
      isRunning := false;
    }

    method ToggleRunning()
      modifies this`isRunning
      ensures isRunning == !old(isRunning)
    {
      isRunning := !isRunning;
    }

    /** The array input: `split(",").map(Number)`; the window is not reset. */
    method SetArr(text: string)
      modifies this`arr
      ensures arr == NumbersOf(Split(text, ','))
    {
      arr := NumbersOf(Split(text, ','));
    }

    method SetK(text: string)
      modifies this`k
      ensures k == NumberOf(text)
    {
      k := NumberOf(text);
    }

    /** The timer callback; it only fires while running. */
    method Tick()
      modifies this`left, this`right, this`currentSum, this`maxLength, this`isRunning
      ensures State() == TickOf(arr, k, old(State()))
      ensures old(WindowInv(arr, State())) ==> WindowInv(arr, State())
    {
      var w := TickOf(arr, k, State());
      left, right, currentSum, maxLength, isRunning := w.left, w.right, w.sum, w.maxLength, w.running;
      if old(WindowInv(arr, State())) {
        TickKeepsWindow(arr, k, old(State()));
      }
    }
  }
}
