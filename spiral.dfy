/**
 * `SpiralAnimation.tsx`: the order in which a spiral walk visits the cells
 * of the matrix, and the timer that reveals one more cell of that order per
 * tick. The walk takes both its row and its column bounds from the number
 * of rows, so it depends on that number `n` alone and treats the matrix as
 * `n` by `n`.
 */
module Spiral {

  /** A `[row, column]` pair of the traversal order. */
  type Cell = (int, int)

  predicate InSquare(n: int, c: Cell)
  {
    0 <= c.0 < n && 0 <= c.1 < n
  }

  predicate NoRepeats(s: seq<Cell>)
  {
    forall p, q :: 0 <= p < q < |s| ==> s[p] != s[q]
  }

  function Min(a: int, b: int): int
  {
    if a <= b then a else b
  }

  /** The ring of the square a cell lies on: its distance to the nearest edge. */
  function Depth(n: int, c: Cell): int
  {
    Min(Min(c.0, c.1), Min(n - 1 - c.0, n - 1 - c.1))
  }

  /** Which run of its ring visits a cell: 0 the top row, 1 the right column, 2 the bottom row, 3 the left column. */
  function Side(n: int, c: Cell): int
  {
    var d := Depth(n, c);
    if c.0 == d then 0 else if c.1 == n - 1 - d then 1 else if c.0 == n - 1 - d then 2 else 3
  }

  /** The position of a cell along its run, growing in the direction the run goes. */
  function Offset(n: int, c: Cell): int
  {
    match Side(n, c)
    case 0 => c.1
    case 1 => c.0
    case 2 => -c.1
    case _ => -c.0
  }

  /** `a` comes before `b` on the spiral: an outer ring, an earlier run, or further back on the same run. */
  predicate Before(n: int, a: Cell, b: Cell)
  {
    Depth(n, a) < Depth(n, b)
    || (Depth(n, a) == Depth(n, b) && Side(n, a) < Side(n, b))
    || (Depth(n, a) == Depth(n, b) && Side(n, a) == Side(n, b) && Offset(n, a) < Offset(n, b))
  }

  /** `c` lies on a ring outside `k`, or on ring `k` on a run before `side`. */
  predicate BelowRun(n: int, c: Cell, k: int, side: int)
  {
    Depth(n, c) < k || (Depth(n, c) == k && Side(n, c) < side)
  }

  /**
   * A walk so far: cells of the square, each after the one before it on the
   * spiral, and the last one before run `side` of ring `k`.
   */
  predicate Walked(n: int, s: seq<Cell>, k: int, side: int)
  {
    (forall p :: 0 <= p < |s| ==> InSquare(n, s[p]) && (0 < p ==> Before(n, s[p - 1], s[p])))
    && (s != [] ==> BelowRun(n, s[|s| - 1], k, side))
  }

  /** Every cell of `seg` is on run `side` of ring `k`, in order along the run. */
  predicate Run(n: int, seg: seq<Cell>, k: int, side: int)
  {
    forall p :: 0 <= p < |seg| ==>
      InSquare(n, seg[p]) && Depth(n, seg[p]) == k && Side(n, seg[p]) == side
      && (0 < p ==> Offset(n, seg[p - 1]) < Offset(n, seg[p]))
  }

  lemma BeforeTransitive(n: int, a: Cell, b: Cell, c: Cell)
    requires Before(n, a, b) && Before(n, b, c)
    ensures Before(n, a, c)
  {
  }

  /** Along a walk every cell comes before every later one. */
  lemma {:induction false} Chain(n: int, s: seq<Cell>, k: int, side: int, p: int, q: int)
    requires Walked(n, s, k, side) && 0 <= p < q < |s|
    ensures Before(n, s[p], s[q])
    decreases q - p
  {
    if p + 1 < q {
      Chain(n, s, k, side, p, q - 1);
      BeforeTransitive(n, s[p], s[q - 1], s[q]);
    }
  }

  lemma WalkedNoRepeats(n: int, s: seq<Cell>, k: int, side: int)
    requires Walked(n, s, k, side)
    ensures NoRepeats(s)
  {
    forall p, q | 0 <= p < q < |s|
      ensures s[p] != s[q]
    {
      Chain(n, s, k, side, p, q);
    }
  }

  /** Appending the next run of the current ring keeps the walk in spiral order. */
  lemma {:induction false} AppendRun(n: int, s: seq<Cell>, seg: seq<Cell>, k: int, side: int)
    requires Walked(n, s, k, side) && Run(n, seg, k, side)
    ensures Walked(n, s + seg, k, side + 1)
  {
    var t := s + seg;
    forall p | 0 <= p < |t|
      ensures InSquare(n, t[p]) && (0 < p ==> Before(n, t[p - 1], t[p]))
    {
      if p >= |s| {
        assert t[p] == seg[p - |s|];
        if p > |s| {
          assert t[p - 1] == seg[p - 1 - |s|];
        }
      }
    }
    if seg != [] {
      assert t[|t| - 1] == seg[|seg| - 1];
    }
  }

  /** `count` cells of row `row` from column `from` rightwards. */
  function RowRight(row: int, from: int, count: nat): seq<Cell>
  {
    if count == 0 then [] else RowRight(row, from, count - 1) + [(row, from + count - 1)]
  }

  /** `count` cells of column `col` from row `from` downwards. */
  function ColumnDown(col: int, from: int, count: nat): seq<Cell>
  {
    if count == 0 then [] else ColumnDown(col, from, count - 1) + [(from + count - 1, col)]
  }

  /** `count` cells of row `row` from column `from` leftwards. */
  function RowLeft(row: int, from: int, count: nat): seq<Cell>
  {
    if count == 0 then [] else RowLeft(row, from, count - 1) + [(row, from - (count - 1))]
  }

  /** `count` cells of column `col` from row `from` upwards. */
  function ColumnUp(col: int, from: int, count: nat): seq<Cell>
  {
    if count == 0 then [] else ColumnUp(col, from, count - 1) + [(from - (count - 1), col)]
  }

  lemma {:induction false} RowRightCells(row: int, from: int, count: nat)
    ensures |RowRight(row, from, count)| == count
    ensures forall t :: 0 <= t < count ==> RowRight(row, from, count)[t] == (row, from + t)
  {
    if count > 0 {
      RowRightCells(row, from, count - 1);
    }
  }

  lemma {:induction false} ColumnDownCells(col: int, from: int, count: nat)
    ensures |ColumnDown(col, from, count)| == count
    ensures forall t :: 0 <= t < count ==> ColumnDown(col, from, count)[t] == (from + t, col)
  {
    if count > 0 {
      ColumnDownCells(col, from, count - 1);
    }
  }

  lemma {:induction false} RowLeftCells(row: int, from: int, count: nat)
    ensures |RowLeft(row, from, count)| == count
    ensures forall t :: 0 <= t < count ==> RowLeft(row, from, count)[t] == (row, from - t)
  {
    if count > 0 {
      RowLeftCells(row, from, count - 1);
    }
  }

  lemma {:induction false} ColumnUpCells(col: int, from: int, count: nat)
    ensures |ColumnUp(col, from, count)| == count
    ensures forall t :: 0 <= t < count ==> ColumnUp(col, from, count)[t] == (from - t, col)
  {
    if count > 0 {
      ColumnUpCells(col, from, count - 1);
    }
  }

  function Count(from: int, to: int): nat
  {
    if to < from then 0 else to - from + 1
  }

  /** `for (i = lo; i <= hi; i++) result.push([row, i])`. */
  method PushRowRight(result: seq<Cell>, row: int, lo: int, hi: int) returns (r: seq<Cell>)
    ensures r == result + RowRight(row, lo, Count(lo, hi))
  {
    r := result;
    var i := lo;
    while i <= hi
      invariant lo <= i && (i <= hi + 1 || i == lo)
      invariant r == result + RowRight(row, lo, i - lo)
    {
      r := r + [(row, i)];
      i := i + 1;
    }
  }

  /** `for (i = lo; i <= hi; i++) result.push([i, col])`. */
  method PushColumnDown(result: seq<Cell>, col: int, lo: int, hi: int) returns (r: seq<Cell>)
    ensures r == result + ColumnDown(col, lo, Count(lo, hi))
  {
    r := result;
    var i := lo;
    while i <= hi
      invariant lo <= i && (i <= hi + 1 || i == lo)
      invariant r == result + ColumnDown(col, lo, i - lo)
    {
      r := r + [(i, col)];
      i := i + 1;
    }
  }

  /** `for (i = hi; i >= lo; i--) result.push([row, i])`. */
  method PushRowLeft(result: seq<Cell>, row: int, hi: int, lo: int) returns (r: seq<Cell>)
    ensures r == result + RowLeft(row, hi, Count(lo, hi))
  {
    r := result;
    var i := hi;
    while i >= lo
      invariant i <= hi && (lo - 1 <= i || i == hi)
      invariant r == result + RowLeft(row, hi, hi - i)
    {
      r := r + [(row, i)];
      i := i - 1;
    }
  }

  /** `for (i = hi; i >= lo; i--) result.push([i, col])`. */
  method PushColumnUp(result: seq<Cell>, col: int, hi: int, lo: int) returns (r: seq<Cell>)
    ensures r == result + ColumnUp(col, hi, Count(lo, hi))
  {
    r := result;
    var i := hi;
    while i >= lo
      invariant i <= hi && (lo - 1 <= i || i == hi)
      invariant r == result + ColumnUp(col, hi, hi - i)
    {
      r := r + [(i, col)];
      i := i - 1;
    }
  }

  /** The four runs of ring `k` of an `n` by `n` square, `e` its last row and column. */
  lemma TopRun(n: int, k: int, e: int)
    requires 0 <= k <= e && e == n - 1 - k
    ensures Run(n, RowRight(k, k, Count(k, e)), k, 0)
  {
    RowRightCells(k, k, Count(k, e));
  }

  lemma RightRun(n: int, k: int, e: int)
    requires 0 <= k <= e && e == n - 1 - k
    ensures Run(n, ColumnDown(e, k + 1, Count(k + 1, e)), k, 1)
  {
    ColumnDownCells(e, k + 1, Count(k + 1, e));
  }

  lemma BottomRun(n: int, k: int, e: int)
    requires 0 <= k < e && e == n - 1 - k
    ensures Run(n, RowLeft(e, e - 1, Count(k, e - 1)), k, 2)
  {
    RowLeftCells(e, e - 1, Count(k, e - 1));
  }

  lemma LeftRun(n: int, k: int, e: int)
    requires 0 <= k < e && e == n - 1 - k
    ensures Run(n, ColumnUp(k, e - 1, Count(k + 1, e - 1)), k, 3)
  {
    ColumnUpCells(k, e - 1, Count(k + 1, e - 1));
  }

  /**
   * The cells outside ring `k` number `n * n - (n - 2k)^2`: a ring of side
   * `m` has `4m - 4` cells, and a one-cell ring has one.
   */
  lemma RingCount(n: int, k: int, a: int, b: int)
    requires 0 <= 2 * k + 2 <= n && a + Square(n - 2 * k) == Square(n) && b == a + 4 * (n - 2 * k) - 4
    ensures b + Square(n - 2 * (k + 1)) == Square(n)
  {
  }

  lemma CentreCount(n: int, k: int, a: int, b: int)
    requires n - 2 * k == 1 && a + Square(n - 2 * k) == Square(n) && b == a + 1
    ensures b == Square(n)
  {
  }

  /** The number of cells of an `m` by `m` square, as the sum of the first `m` odd numbers. */
  function Square(m: int): int
    decreases m
  {
    if m <= 0 then 0 else Square(m - 1) + 2 * m - 1
  }

  lemma {:induction false} SquareIsProduct(m: nat)
    ensures Square(m) == m * m
  {
    if m > 0 {
      SquareIsProduct(m - 1);
    }
  }

  /**
   * `traversalOrder` for a matrix of `n` rows: the walk round the top row,
   * down the right column, back along the bottom row and up the left column,
   * ring after ring. It visits `n * n` cells of the square, none twice,
   * starting with row 0 left to right and then the last column downwards.
   */
  method TraversalOrder(n: nat) returns (result: seq<Cell>)
    ensures |result| == n * n
    ensures forall p :: 0 <= p < |result| ==> InSquare(n, result[p])
    ensures NoRepeats(result)
    ensures forall j :: 0 <= j < n ==> result[j] == (0, j)
    ensures forall p :: n <= p < 2 * n - 1 ==> result[p] == (p - n + 1, n - 1)
  {
    result := [];
    var top, bottom, left, right := 0, n - 1, 0, n - 1;
    ghost var k, centre := 0, false;
    while top <= bottom && left <= right
      invariant 0 <= k && top == k && right == n - 1 - k
      invariant !centre ==> left == k && bottom == n - 1 - k && 2 * k <= n && |result| + Square(n - 2 * k) == Square(n)
      invariant centre ==> left == k - 1 && bottom == n - k && n == 2 * k - 1 && |result| == Square(n)
      invariant Walked(n, result, k, 0)
      invariant k >= 1 ==> |result| >= 2 * n - 1 && result[..2 * n - 1] == FirstRuns(n)
      decreases n - top
    {
      assert !centre;
      ghost var before, e := result, bottom;
      RingWalked(n, before, k, e);
      if k == 0 {
        FirstRing(n, before);
      } else {
        KeepsFront(before, RingWalk(k, e), 2 * n - 1);
      }
      result, top, bottom, left, right := Ring(n, result, top, bottom, left, right);
      if left == k {
        CentreCount(n, k, |before|, |result|);
        centre := true;
      } else {
        RingCount(n, k, |before|, |result|);
      }
      k := k + 1;
    }
    WalkedNoRepeats(n, result, k, 0);
    assert !centre ==> n - 2 * k == 0;
    SquareIsProduct(n);
    if n >= 1 {
      FrontRuns(n, result);
    }
  }

  /** The cells the loop body visits on ring `k`, whose last row and column are `e`. */
  function RingWalk(k: int, e: int): seq<Cell>
  {
    RowRight(k, k, Count(k, e)) + ColumnDown(e, k + 1, Count(k + 1, e))
    + if k < e then RowLeft(e, e - 1, Count(k, e - 1)) + ColumnUp(k, e - 1, Count(k + 1, e - 1)) else []
  }

  /**
   * One pass of the loop body on ring `k` (`top` and `left` are `k`,
   * `bottom` and `right` its last row and column): the top row, the right
   * column, and, while rows and columns remain, the bottom row and the left
   * column.
   */
  method Ring(n: int, result: seq<Cell>, top: int, bottom: int, left: int, right: int)
    returns (r: seq<Cell>, top': int, bottom': int, left': int, right': int)
    requires 0 <= top && left == top && bottom == n - 1 - top && right == bottom && top <= bottom
    ensures r == result + RingWalk(top, bottom)
    ensures top' == top + 1 && right' == right - 1
    ensures top < bottom ==> bottom' == bottom - 1 && left' == left + 1
    ensures top == bottom ==> bottom' == bottom && left' == left
  {
    r := PushRowRight(result, top, left, right);
    top' := top + 1;
    r := PushColumnDown(r, right, top', bottom);
    right' := right - 1;
    bottom', left' := bottom, left;
    if top' <= bottom' {
      r := PushRowLeft(r, bottom', right', left');
      bottom' := bottom' - 1;
    }
    if left' <= right' {
      r := PushColumnUp(r, left', bottom', top');
      left' := left' + 1;
    }
  }

  /** The ring keeps the walk in spiral order, and has `4m - 4` cells for side `m > 1`, one for side 1. */
  lemma RingWalked(n: int, s: seq<Cell>, k: int, e: int)
    requires 0 <= k <= e && e == n - 1 - k && Walked(n, s, k, 0)
    ensures Walked(n, s + RingWalk(k, e), k + 1, 0)
    ensures k < e ==> |RingWalk(k, e)| == 4 * (e - k + 1) - 4
    ensures k == e ==> |RingWalk(k, e)| == 1
  {
    var top, right := RowRight(k, k, Count(k, e)), ColumnDown(e, k + 1, Count(k + 1, e));
    var bottom, left := RowLeft(e, e - 1, Count(k, e - 1)), ColumnUp(k, e - 1, Count(k + 1, e - 1));
    RowRightCells(k, k, Count(k, e));
    ColumnDownCells(e, k + 1, Count(k + 1, e));
    RowLeftCells(e, e - 1, Count(k, e - 1));
    ColumnUpCells(k, e - 1, Count(k + 1, e - 1));
    TopRun(n, k, e);
    AppendRun(n, s, top, k, 0);
    RightRun(n, k, e);
    AppendRun(n, s + top, right, k, 1);
    if k < e {
      BottomAndLeftRuns(n, s + top + right, k, e);
      assert RingWalk(k, e) == top + right + (bottom + left);
      Regroup(s, top, right, bottom, left);
    } else {
      LastRing(n, s + top + right, k);
      assert RingWalk(k, e) == top + right + [];
      Regroup(s, top, right, [], []);
    }
  }

  lemma Regroup(s: seq<Cell>, a: seq<Cell>, b: seq<Cell>, c: seq<Cell>, d: seq<Cell>)
    ensures s + (a + b + (c + d)) == s + a + b + c + d
    ensures c == [] && d == [] ==> s + (a + b + []) == s + a + b
  {
  }

  /** The outer ring starts with row 0 and then the last column. */
  lemma FirstRing(n: int, s: seq<Cell>)
    requires n >= 1 && s == []
    ensures |s + RingWalk(0, n - 1)| >= 2 * n - 1 && (s + RingWalk(0, n - 1))[..2 * n - 1] == FirstRuns(n)
  {
    assert s + RingWalk(0, n - 1) == RingWalk(0, n - 1);
    assert Count(0, n - 1) == n && Count(1, n - 1) == n - 1;
    RowRightCells(0, 0, n);
    ColumnDownCells(n - 1, 1, n - 1);
    assert RingWalk(0, n - 1)[..2 * n - 1] == RowRight(0, 0, n) + ColumnDown(n - 1, 1, n - 1);
  }

  /** Walking the last two runs of ring `k` leaves every cell outside ring `k + 1`. */
  lemma BottomAndLeftRuns(n: int, s: seq<Cell>, k: int, e: int)
    requires 0 <= k < e && e == n - 1 - k && Walked(n, s, k, 2)
    ensures Walked(n, s + RowLeft(e, e - 1, Count(k, e - 1)) + ColumnUp(k, e - 1, Count(k + 1, e - 1)), k + 1, 0)
  {
    var s' := s + RowLeft(e, e - 1, Count(k, e - 1));
    BottomRun(n, k, e);
    AppendRun(n, s, RowLeft(e, e - 1, Count(k, e - 1)), k, 2);
    LeftRun(n, k, e);
    AppendRun(n, s', ColumnUp(k, e - 1, Count(k + 1, e - 1)), k, 3);
    NextRing(n, s' + ColumnUp(k, e - 1, Count(k + 1, e - 1)), k);
  }

  /** Once the runs of ring `k` are walked, every cell is outside ring `k + 1`. */
  lemma NextRing(n: int, s: seq<Cell>, k: int)
    requires Walked(n, s, k, 4)
    ensures Walked(n, s, k + 1, 0)
  {
  }

  /** A one-cell centre ends the walk: nothing lies inside it. */
  lemma LastRing(n: int, s: seq<Cell>, k: int)
    requires Walked(n, s, k, 2)
    ensures Walked(n, s, k + 1, 0)
  {
  }

  function FirstRuns(n: int): seq<Cell>
    requires n >= 1
  {
    RowRight(0, 0, n) + ColumnDown(n - 1, 1, n - 1)
  }

  /** Cells appended later leave the first two runs at the front. */
  lemma KeepsFront(s: seq<Cell>, x: seq<Cell>, len: int)
    requires 0 <= len <= |s|
    ensures (s + x)[..len] == s[..len]
  {
  }

  /** The front of the walk read as its two first runs. */
  lemma FrontRuns(n: int, s: seq<Cell>)
    requires n >= 1 && |s| >= 2 * n - 1 && s[..2 * n - 1] == FirstRuns(n)
    ensures forall j :: 0 <= j < n ==> s[j] == (0, j)
    ensures forall p :: n <= p < 2 * n - 1 ==> s[p] == (p - n + 1, n - 1)
  {
    RowRightCells(0, 0, n);
    ColumnDownCells(n - 1, 1, n - 1);
    forall j | 0 <= j < n
      ensures s[j] == (0, j)
    {
      assert s[j] == FirstRuns(n)[j];
    }
    forall p | n <= p < 2 * n - 1
      ensures s[p] == (p - n + 1, n - 1)
    {
      assert s[p] == FirstRuns(n)[p];
    }
  }

  /** Cell `[i, j]` is drawn as visited: it is among the first `step` cells of the order. */
  predicate Visited(order: seq<Cell>, step: int, i: int, j: int)
  {
    exists p :: 0 <= p < step && p < |order| && order[p] == (i, j)
  }

  /** One more step of the order shows the cell it reaches and keeps the earlier ones. */
  lemma VisitedStep(order: seq<Cell>, step: int, i: int, j: int)
    requires 0 <= step < |order|
    ensures Visited(order, step + 1, i, j) <==> Visited(order, step, i, j) || order[step] == (i, j)
  {
  }

  /** Across a walk with no repeats, the cell a step reaches was not visited before it. */
  lemma StepReachesNewCell(order: seq<Cell>, step: int)
    requires NoRepeats(order) && 0 <= step < |order|
    ensures !Visited(order, step, order[step].0, order[step].1)
  {
  }

  /** The animation: the matrix's row count, its traversal order, and the step the timer has reached. */
  class SpiralAnimation {
    var rows: nat
    var order: seq<Cell>
    var currentStep: int
    var isRunning: bool

    predicate Valid()
      reads this
    {
      |order| == rows * rows && NoRepeats(order) && 0 <= currentStep <= |order|
    }

    /** The first render: the 3 by 3 matrix 1..9, step 0, paused. */
    constructor ()
      ensures Valid() && rows == 3 && currentStep == 0 && !isRunning
    {
      var walk := TraversalOrder(3);
      rows := 3;
      order := walk;
      currentStep := 0;
      isRunning := false;
    }

    /** `handleMatrixChange` on text that parses to an array of arrays of `newRows` rows: a new order and a reset. */
    method SetMatrix(newRows: nat)
      modifies this
      ensures Valid() && rows == newRows && currentStep == 0 && !isRunning
    {
      rows := newRows;
      order := TraversalOrder(newRows);
      ResetAnimation();
    }

    /** `resetAnimation`. */
    method ResetAnimation()
      modifies this`currentStep, this`isRunning
      requires |order| == rows * rows && NoRepeats(order)
      ensures Valid() && currentStep == 0 && !isRunning
    {
      currentStep := 0;
      isRunning := false;
    }

    /** `toggleRunning`, whose button is disabled once every step is shown. */
    method ToggleRunning()
      modifies this`isRunning
      requires Valid()
      ensures Valid()
      ensures old(currentStep) < |order| ==> isRunning == !old(isRunning)
      ensures old(currentStep) >= |order| ==> isRunning == old(isRunning)
    {
      if currentStep < |order| {
        isRunning := !isRunning;
      }
    }

    /**
     * The step effect once its timer has run out: while running and not at
     * the end, one more cell is shown; at the end the run stops.
     */
    method Tick()
      modifies this`currentStep, this`isRunning
      requires Valid()
      ensures Valid()
      ensures old(isRunning) && old(currentStep) < |order| ==> currentStep == old(currentStep) + 1 && isRunning
      ensures !old(isRunning) && old(currentStep) < |order| ==> currentStep == old(currentStep) && !isRunning
      ensures old(currentStep) == |order| ==> currentStep == old(currentStep) && !isRunning
    {
      if isRunning && currentStep < |order| {
        currentStep := currentStep + 1;
      } else if currentStep >= |order| {
        isRunning := false;
      }
    }
  }
}
