/**
 * `RotateImageVisualizer.tsx`: the list of swaps `rotateMatrix` emits to
 * rotate an `n` by `n` matrix a quarter turn clockwise (a transpose, then
 * every row reversed), the rotated view drawn beside it, and the timer that
 * steps through the swaps.
 */
module RotateImage {

  datatype StepKind = Swap | Reverse

  /** A `RotationStep`: cell `(i, j)` and cell `(i2, j2)`. */
  datatype RotationStep = RotationStep(kind: StepKind, i: int, j: int, i2: int, j2: int)

  type Matrix = seq<seq<int>>

  predicate IsSquare(m: Matrix, n: int)
  {
    |m| == n && forall r :: 0 <= r < n ==> |m[r]| == n
  }

  /** The swaps of row `i` of the transpose for columns `i + 1` up to `j - 1`. */
  function TransposeRow(i: int, j: int): seq<RotationStep>
    decreases j - i
  {
    if j <= i + 1 then [] else TransposeRow(i, j - 1) + [RotationStep(Swap, i, j - 1, j - 1, i)]
  }

  /** The transpose swaps of rows `0` up to `i - 1` of an `n` by `n` matrix. */
  function TransposeRows(n: int, i: int): seq<RotationStep>
    decreases i
  {
    if i <= 0 then [] else TransposeRows(n, i - 1) + TransposeRow(i - 1, n)
  }

  /** The swaps reversing row `i` for columns `0` up to `j - 1`. */
  function ReverseRow(n: int, i: int, j: int): seq<RotationStep>
    decreases j
  {
    if j <= 0 then [] else ReverseRow(n, i, j - 1) + [RotationStep(Swap, i, j - 1, i, n - 1 - (j - 1))]
  }

  /** The reversal swaps of rows `0` up to `i - 1`. */
  function ReverseRows(n: int, i: int): seq<RotationStep>
    decreases i
  {
    if i <= 0 then [] else ReverseRows(n, i - 1) + ReverseRow(n, i - 1, n / 2)
  }

  /** Every step `rotateMatrix` emits for a matrix of `n` rows, in order. */
  function RotationSteps(n: nat): seq<RotationStep>
  {
    TransposeRows(n, n) + ReverseRows(n, n)
  }

  /** `rotateMatrix`: the transpose loops, then the row-reversal loops, over `n = mat.length`. */
  method RotateMatrix(mat: Matrix) returns (steps: seq<RotationStep>)
    ensures steps == RotationSteps(|mat|)
  {
    var n := |mat|;
    steps := [];
    var i := 0;
    while i < n
      invariant 0 <= i <= n && steps == TransposeRows(n, i)
    {
      var j := i + 1;
      while j < n
        invariant i + 1 <= j && (j <= n || j == i + 1)
        invariant steps == TransposeRows(n, i) + TransposeRow(i, j)
      {
        steps := steps + [RotationStep(Swap, i, j, j, i)];
        j := j + 1;
      }
      i := i + 1;
    }
    ghost var transposed := steps;
    i := 0;
    while i < n
      invariant 0 <= i <= n && steps == transposed + ReverseRows(n, i)
    {
      var j := 0;
      while j < n / 2
        invariant 0 <= j <= n / 2
        invariant steps == transposed + ReverseRows(n, i) + ReverseRow(n, i, j)
      {
        steps := steps + [RotationStep(Swap, i, j, i, n - 1 - j)];
        j := j + 1;
      }
      i := i + 1;
    }
  }


  // ----- how many steps, and which -----

  /** `k(k - 1) / 2`, the number of cells above the diagonal of a `k` by `k` matrix. */
  function Pairs(k: int): nat
    decreases k
  {
    if k <= 0 then 0 else Pairs(k - 1) + k - 1
  }

  lemma {:induction false} PairsIsProduct(k: nat)
    ensures 2 * Pairs(k) == k * (k - 1)
  {
    if k > 0 {
      PairsIsProduct(k - 1);
    }
  }

  lemma {:induction false} TransposeRowSteps(i: int, j: int)
    requires 0 <= i
    ensures |TransposeRow(i, j)| == if j <= i + 1 then 0 else j - i - 1
    ensures forall t :: 0 <= t < |TransposeRow(i, j)| ==>
              TransposeRow(i, j)[t] == RotationStep(Swap, i, i + 1 + t, i + 1 + t, i)
    decreases j - i
  {
    if j > i + 1 {
      TransposeRowSteps(i, j - 1);
    }
  }

  /** The transpose of rows `0..i-1` leaves the `Pairs(n - i)` pairs of the rows below. */
  lemma {:induction false} TransposeCount(n: int, i: int)
    requires 0 <= i <= n
    ensures |TransposeRows(n, i)| + Pairs(n - i) == Pairs(n)
    decreases i
  {
    if i > 0 {
      TransposeCount(n, i - 1);
      TransposeRowSteps(i - 1, n);
    }
  }

  lemma {:induction false} ReverseRowSteps(n: int, i: int, j: int)
    requires 0 <= j
    ensures |ReverseRow(n, i, j)| == j
    ensures forall t :: 0 <= t < j ==> ReverseRow(n, i, j)[t] == RotationStep(Swap, i, t, i, n - 1 - t)
    decreases j
  {
    if j > 0 {
      ReverseRowSteps(n, i, j - 1);
    }
  }

  /** Reversing rows `0..i-1` takes `floor(n / 2)` swaps a row. */
  lemma {:induction false} ReverseCount(n: nat, i: int)
    requires 0 <= i
    ensures |ReverseRows(n, i)| == i * (n / 2)
    decreases i
  {
    if i > 0 {
      ReverseCount(n, i - 1);
      ReverseRowSteps(n, i - 1, n / 2);
    }
  }

  /** A transpose step swaps `(i, j)` with `(j, i)` above the diagonal. */
  predicate TransposeSwap(n: int, s: RotationStep)
  {
    s.kind == Swap && 0 <= s.i < s.j < n && s.i2 == s.j && s.j2 == s.i
  }

  /** A reversal step swaps `(i, j)` with `(i, n - 1 - j)` in the left half of a row. */
  predicate ReverseSwap(n: int, s: RotationStep)
  {
    s.kind == Swap && 0 <= s.i < n && 0 <= s.j < n / 2 && s.i2 == s.i && s.j2 == n - 1 - s.j
  }

  lemma {:induction false} TransposeRowsShape(n: int, i: int)
    requires 0 <= i <= n
    ensures forall t :: 0 <= t < |TransposeRows(n, i)| ==> TransposeSwap(n, TransposeRows(n, i)[t])
    decreases i
  {
    if i > 0 {
      TransposeRowsShape(n, i - 1);
      TransposeRowSteps(i - 1, n);
      var a, b := TransposeRows(n, i - 1), TransposeRow(i - 1, n);
      forall t | 0 <= t < |a + b|
        ensures TransposeSwap(n, (a + b)[t])
      {
        if t >= |a| {
          assert (a + b)[t] == b[t - |a|];
        }
      }
    }
  }

  lemma {:induction false} ReverseRowsShape(n: int, i: int)
    requires 0 <= i <= n
    ensures forall t :: 0 <= t < |ReverseRows(n, i)| ==> ReverseSwap(n, ReverseRows(n, i)[t])
    decreases i
  {
    if i > 0 {
      ReverseRowsShape(n, i - 1);
      ReverseRowSteps(n, i - 1, n / 2);
      var a, b := ReverseRows(n, i - 1), ReverseRow(n, i - 1, n / 2);
      forall t | 0 <= t < |a + b|
        ensures ReverseSwap(n, (a + b)[t])
      {
        if t >= |a| {
          assert (a + b)[t] == b[t - |a|];
        }
      }
    }
  }

  /**
   * `rotateMatrix` emits `n(n - 1) / 2` transpose swaps followed by
   * `n * floor(n / 2)` row-reversal swaps; every step is a swap, so the
   * "reverse" kind never occurs.
   */
  lemma RotationStepsShape(n: nat)
    ensures var steps, t := RotationSteps(n), |TransposeRows(n, n)|;
            2 * t == n * (n - 1) && |steps| == t + n * (n / 2)
            && (forall p :: 0 <= p < t ==> TransposeSwap(n, steps[p]))
            && (forall p :: t <= p < |steps| ==> ReverseSwap(n, steps[p]))
            && (forall p :: 0 <= p < |steps| ==> steps[p].kind != Reverse)
  {
    TransposeCount(n, n);
    PairsIsProduct(n);
    ReverseCount(n, n);
    TransposeRowsShape(n, n);
    ReverseRowsShape(n, n);
    var a, b := TransposeRows(n, n), ReverseRows(n, n);
    forall p | 0 <= p < |a + b|
      ensures (p < |a| ==> TransposeSwap(n, (a + b)[p])) && (p >= |a| ==> ReverseSwap(n, (a + b)[p]))
    {
      if p >= |a| {
        assert (a + b)[p] == b[p - |a|];
      }
    }
  }

  // ----- what the swaps do -----

  /** Cell `(a, b)`, or `0` outside the matrix. */
  function At(m: Matrix, a: int, b: int): int
  {
    if 0 <= a < |m| && 0 <= b < |m[a]| then m[a][b] else 0
  }

  /** The step names two cells of `m`. */
  predicate Names(m: Matrix, s: RotationStep)
  {
    0 <= s.i < |m| && 0 <= s.j < |m[s.i]| && 0 <= s.i2 < |m| && 0 <= s.j2 < |m[s.i2]|
  }

  /** Exchanges the two cells a step names; a step outside the matrix changes nothing. */
  function SwapCells(m: Matrix, s: RotationStep): Matrix
  {
    if !Names(m, s) then m
    else
      var first, second := m[s.i][s.j], m[s.i2][s.j2];
      var m1 := m[s.i := m[s.i][s.j := second]];
      m1[s.i2 := m1[s.i2][s.j2 := first]]
  }

  lemma SwapCellsAt(m: Matrix, s: RotationStep, a: int, b: int)
    requires Names(m, s)
    ensures At(SwapCells(m, s), a, b) ==
              if (a, b) == (s.i2, s.j2) then At(m, s.i, s.j)
              else if (a, b) == (s.i, s.j) then At(m, s.i2, s.j2)
              else At(m, a, b)
  {
  }

  /** The matrix after the steps, one after the other. */
  function Apply(m: Matrix, steps: seq<RotationStep>): Matrix
    decreases |steps|
  {
    if steps == [] then m else SwapCells(Apply(m, steps[..|steps| - 1]), steps[|steps| - 1])
  }

  /** Swapping keeps the number of rows and the length of each. */
  lemma {:induction false} ApplyShape(m: Matrix, steps: seq<RotationStep>)
    ensures |Apply(m, steps)| == |m|
    ensures forall r :: 0 <= r < |m| ==> |Apply(m, steps)[r]| == |m[r]|
    decreases |steps|
  {
    if steps != [] {
      ApplyShape(m, steps[..|steps| - 1]);
    }
  }

  lemma ApplySnoc(m: Matrix, a: seq<RotationStep>, s: RotationStep)
    ensures Apply(m, a + [s]) == SwapCells(Apply(m, a), s)
  {
    assert (a + [s])[..|a|] == a;
  }

  /** The rotated view: cell `(i, j)` shows `mat[n - 1 - j][i]`. */
  function Rotated(m: Matrix, n: int): (r: Matrix)
    requires IsSquare(m, n)
    ensures IsSquare(r, n)
  {
    seq(n, i requires 0 <= i < n => seq(n, j requires 0 <= j < n => m[n - 1 - j][i]))
  }

  /** Pair `a, b` of the transpose is exchanged once the loops have reached row `i`, column `j`. */
  predicate TransposeDone(i: int, j: int, a: int, b: int)
  {
    (a < b && (a < i || (a == i && b < j))) || (b < a && (b < i || (b == i && a < j)))
  }

  /** Cell `(a, b)` of `m`, or of its transpose once `swapped`. */
  function TransposeEntry(m: Matrix, swapped: bool, a: int, b: int): int
  {
    if swapped then At(m, b, a) else At(m, a, b)
  }

  /** `x` is `m` with the transpose swaps before row `i`, column `j` applied. */
  predicate PartlyTransposed(x: Matrix, m: Matrix, n: int, i: int, j: int)
  {
    forall a, b :: 0 <= a < n && 0 <= b < n ==> At(x, a, b) == TransposeEntry(m, TransposeDone(i, j, a, b), a, b)
  }

  /** The swap of `(i, j - 1)` and `(j - 1, i)`, cell by cell. */
  lemma TransposeCell(z: Matrix, m: Matrix, n: int, i: int, j: int, a: int, b: int)
    requires IsSquare(z, n) && 0 <= i < j - 1 < n && 0 <= a < n && 0 <= b < n
    requires PartlyTransposed(z, m, n, i, j - 1)
    ensures At(SwapCells(z, RotationStep(Swap, i, j - 1, j - 1, i)), a, b) == TransposeEntry(m, TransposeDone(i, j, a, b), a, b)
  {
    var s := RotationStep(Swap, i, j - 1, j - 1, i);
    SwapCellsAt(z, s, a, b);
    if (a, b) == (j - 1, i) {
      assert At(z, i, j - 1) == At(m, i, j - 1);
    } else if (a, b) == (i, j - 1) {
      assert At(z, j - 1, i) == At(m, j - 1, i);
    } else {
      assert TransposeDone(i, j - 1, a, b) == TransposeDone(i, j, a, b);
      assert At(SwapCells(z, s), a, b) == At(z, a, b);
    }
  }

  /** One more transpose swap in row `i`, after the steps `done` of the rows above. */
  lemma TransposeStep(m: Matrix, n: int, i: int, j: int, done: seq<RotationStep>)
    requires IsSquare(m, n) && 0 <= i < j - 1 < n
    requires PartlyTransposed(Apply(m, done + TransposeRow(i, j - 1)), m, n, i, j - 1)
    ensures PartlyTransposed(Apply(m, done + TransposeRow(i, j)), m, n, i, j)
  {
    var s := RotationStep(Swap, i, j - 1, j - 1, i);
    var z := Apply(m, done + TransposeRow(i, j - 1));
    assert done + TransposeRow(i, j) == (done + TransposeRow(i, j - 1)) + [s];
    ApplySnoc(m, done + TransposeRow(i, j - 1), s);
    ApplyShape(m, done + TransposeRow(i, j - 1));
    forall a, b | 0 <= a < n && 0 <= b < n
      ensures At(SwapCells(z, s), a, b) == TransposeEntry(m, TransposeDone(i, j, a, b), a, b)
    {
      TransposeCell(z, m, n, i, j, a, b);
    }
  }

  /** Row `i` of the transpose, swap by swap, after the steps `done` of the rows above. */
  lemma {:induction false} TransposeRowApplied(m: Matrix, n: int, i: int, j: int, done: seq<RotationStep>)
    requires IsSquare(m, n) && 0 <= i < n && i + 1 <= j <= n
    requires PartlyTransposed(Apply(m, done), m, n, i, i + 1)
    ensures PartlyTransposed(Apply(m, done + TransposeRow(i, j)), m, n, i, j)
    decreases j - i
  {
    if j > i + 1 {
      TransposeRowApplied(m, n, i, j - 1, done);
      TransposeStep(m, n, i, j, done);
    } else {
      assert done + TransposeRow(i, j) == done;
    }
  }

  /** A finished row of the transpose is the start of the next. */
  lemma MovesToNextRow(x: Matrix, m: Matrix, n: int, i: int)
    requires 0 < i <= n && PartlyTransposed(x, m, n, i - 1, n)
    ensures PartlyTransposed(x, m, n, i, i + 1)
  {
    forall a, b | 0 <= a < n && 0 <= b < n
      ensures At(x, a, b) == TransposeEntry(m, TransposeDone(i, i + 1, a, b), a, b)
    {
      assert TransposeDone(i - 1, n, a, b) == TransposeDone(i, i + 1, a, b);
    }
  }

  lemma {:induction false} TransposeRowsApplied(m: Matrix, n: int, i: int)
    requires IsSquare(m, n) && 0 <= i <= n
    ensures PartlyTransposed(Apply(m, TransposeRows(n, i)), m, n, i, i + 1)
    decreases i
  {
    if i > 0 {
      TransposeRowsApplied(m, n, i - 1);
      TransposeNextRow(m, n, i);
    } else {
      assert TransposeRows(n, i) == [];
    }
  }

  /** Row `i` of the transpose, after the rows above it. */
  lemma TransposeNextRow(m: Matrix, n: int, i: int)
    requires IsSquare(m, n) && 0 < i <= n
    requires PartlyTransposed(Apply(m, TransposeRows(n, i - 1)), m, n, i - 1, i)
    ensures PartlyTransposed(Apply(m, TransposeRows(n, i)), m, n, i, i + 1)
  {
    TransposeRowApplied(m, n, i - 1, n, TransposeRows(n, i - 1));
    assert TransposeRows(n, i) == TransposeRows(n, i - 1) + TransposeRow(i - 1, n);
    MovesToNextRow(Apply(m, TransposeRows(n, i)), m, n, i);
  }

  /** Cell `(a, b)` of `t`, the transpose, has been exchanged with `(a, n - 1 - b)` once the loops reach row `i`, column `j`. */
  predicate ReverseDone(n: int, i: int, j: int, a: int, b: int)
  {
    a < i || (a == i && (b < j || n - 1 - b < j))
  }

  /** Cell `(a, b)` of `t`, or of `t` with its rows reversed once `swapped`. */
  function MirrorEntry(t: Matrix, n: int, swapped: bool, a: int, b: int): int
  {
    if swapped then At(t, a, n - 1 - b) else At(t, a, b)
  }

  predicate PartlyReversed(x: Matrix, t: Matrix, n: int, i: int, j: int)
  {
    forall a, b :: 0 <= a < n && 0 <= b < n ==> At(x, a, b) == MirrorEntry(t, n, ReverseDone(n, i, j, a, b), a, b)
  }

  /** The swap of `(i, j - 1)` and `(i, n - j)`, cell by cell. */
  lemma ReverseCell(z: Matrix, t: Matrix, n: int, i: int, j: int, a: int, b: int)
    requires IsSquare(z, n) && 0 <= i < n && 0 < j <= n / 2 && 0 <= a < n && 0 <= b < n
    requires PartlyReversed(z, t, n, i, j - 1)
    ensures At(SwapCells(z, RotationStep(Swap, i, j - 1, i, n - j)), a, b) == MirrorEntry(t, n, ReverseDone(n, i, j, a, b), a, b)
  {
    var s := RotationStep(Swap, i, j - 1, i, n - j);
    SwapCellsAt(z, s, a, b);
    if (a, b) == (i, n - j) {
      assert At(z, i, j - 1) == At(t, i, j - 1);
    } else if (a, b) == (i, j - 1) {
      assert At(z, i, n - j) == At(t, i, n - j);
    } else {
      assert ReverseDone(n, i, j - 1, a, b) == ReverseDone(n, i, j, a, b);
      assert At(SwapCells(z, s), a, b) == At(z, a, b);
    }
  }

  /** One more reversal swap in row `i`, after the steps `done` of the rows above. */
  lemma ReverseStep(m: Matrix, t: Matrix, n: int, i: int, j: int, done: seq<RotationStep>)
    requires IsSquare(m, n) && 0 <= i < n && 0 < j <= n / 2
    requires PartlyReversed(Apply(m, done + ReverseRow(n, i, j - 1)), t, n, i, j - 1)
    ensures PartlyReversed(Apply(m, done + ReverseRow(n, i, j)), t, n, i, j)
  {
    var s := RotationStep(Swap, i, j - 1, i, n - j);
    var z := Apply(m, done + ReverseRow(n, i, j - 1));
    assert done + ReverseRow(n, i, j) == (done + ReverseRow(n, i, j - 1)) + [s];
    ApplySnoc(m, done + ReverseRow(n, i, j - 1), s);
    ApplyShape(m, done + ReverseRow(n, i, j - 1));
    forall a, b | 0 <= a < n && 0 <= b < n
      ensures At(SwapCells(z, s), a, b) == MirrorEntry(t, n, ReverseDone(n, i, j, a, b), a, b)
    {
      ReverseCell(z, t, n, i, j, a, b);
    }
  }

  /** Row `i` reversed, swap by swap, after the steps `done`. */
  lemma {:induction false} ReverseRowApplied(m: Matrix, t: Matrix, n: int, i: int, j: int, done: seq<RotationStep>)
    requires IsSquare(m, n) && 0 <= i < n && 0 <= j <= n / 2
    requires PartlyReversed(Apply(m, done), t, n, i, 0)
    ensures PartlyReversed(Apply(m, done + ReverseRow(n, i, j)), t, n, i, j)
    decreases j
  {
    if j > 0 {
      ReverseRowApplied(m, t, n, i, j - 1, done);
      ReverseStep(m, t, n, i, j, done);
    } else {
      assert done + ReverseRow(n, i, j) == done;
    }
  }

  /** A reversed row is reversed in full: the middle cell of an odd row stays where it is. */
  lemma RowReversed(x: Matrix, t: Matrix, n: int, i: int)
    requires 0 < i <= n && PartlyReversed(x, t, n, i - 1, n / 2)
    ensures PartlyReversed(x, t, n, i, 0)
  {
    forall a, b | 0 <= a < n && 0 <= b < n
      ensures At(x, a, b) == MirrorEntry(t, n, ReverseDone(n, i, 0, a, b), a, b)
    {
      if a == i - 1 && !ReverseDone(n, i - 1, n / 2, a, b) {
        assert b == n - 1 - b;
      }
    }
  }

  /** The rows `0..i-1` reversed, after the steps `done` that left the transpose `t`. */
  lemma {:induction false} ReverseRowsApplied(m: Matrix, t: Matrix, n: int, i: int, done: seq<RotationStep>)
    requires IsSquare(m, n) && 0 <= i <= n && PartlyReversed(Apply(m, done), t, n, 0, 0)
    ensures PartlyReversed(Apply(m, done + ReverseRows(n, i)), t, n, i, 0)
    decreases i
  {
    if i > 0 {
      ReverseRowsApplied(m, t, n, i - 1, done);
      ReverseNextRow(m, t, n, i, done);
    } else {
      assert done + ReverseRows(n, i) == done;
    }
  }

  /** Row `i` reversed, after the rows above it. */
  lemma ReverseNextRow(m: Matrix, t: Matrix, n: int, i: int, done: seq<RotationStep>)
    requires IsSquare(m, n) && 0 < i <= n
    requires PartlyReversed(Apply(m, done + ReverseRows(n, i - 1)), t, n, i - 1, 0)
    ensures PartlyReversed(Apply(m, done + ReverseRows(n, i)), t, n, i, 0)
  {
    ReverseRowApplied(m, t, n, i - 1, n / 2, done + ReverseRows(n, i - 1));
    assert done + ReverseRows(n, i) == (done + ReverseRows(n, i - 1)) + ReverseRow(n, i - 1, n / 2);
    RowReversed(Apply(m, done + ReverseRows(n, i)), t, n, i);
  }

  /**
   * Carrying out the emitted swaps in order turns the matrix into the
   * rotated view: cell `(i, j)` ends up holding `mat[n - 1 - j][i]`.
   */
  lemma {:induction false} SwapsRotate(m: Matrix, n: nat)
    requires IsSquare(m, n)
    ensures Apply(m, RotationSteps(n)) == Rotated(m, n)
  {
    TransposeRowsApplied(m, n, n);
    var x := Apply(m, TransposeRows(n, n));
    assert PartlyReversed(x, x, n, 0, 0);
    ReverseRowsApplied(m, x, n, n, TransposeRows(n, n));
    var r := Apply(m, RotationSteps(n));
    ApplyShape(m, RotationSteps(n));
    forall a | 0 <= a < n
      ensures r[a] == Rotated(m, n)[a]
    {
      forall b | 0 <= b < n
        ensures r[a][b] == Rotated(m, n)[a][b]
      {
        assert At(r, a, b) == At(x, a, n - 1 - b);
        assert TransposeDone(n, n + 1, a, n - 1 - b) || a == n - 1 - b;
      }
    }
  }

  // ----- the visualizer -----

  /** The line under the step counter. */
  datatype Status = Swapping(i: int, j: int, i2: int, j2: int) | ReversingRow | Complete | Ready

  /** The status line as written: "Rotation complete!" only past the last step. */
  function StatusAsWritten(steps: seq<RotationStep>, step: int): (st: Status)
    ensures st == Complete <==> step > |steps|
  {
    if 0 < step <= |steps| then
      var s := steps[step - 1];
      if s.kind == Swap then Swapping(s.i, s.j, s.i2, s.j2) else ReversingRow
    else if step > |steps| then Complete
    else Ready
  }

  /**
   * The status line with "Rotation complete!" from the step at which the
   * rotated view turns green (`step >= rotationSteps.length`).
   */
  function StatusOf(steps: seq<RotationStep>, step: int): (st: Status)
    ensures st == Complete <==> step >= |steps|
    ensures 0 < step < |steps| && steps[step - 1].kind == Swap ==>
              st == Swapping(steps[step - 1].i, steps[step - 1].j, steps[step - 1].i2, steps[step - 1].j2)
    ensures step <= 0 < |steps| ==> st == Ready
  {
    if step >= |steps| then Complete
    else if 0 < step then
      var s := steps[step - 1];
      if s.kind == Swap then Swapping(s.i, s.j, s.i2, s.j2) else ReversingRow
    else Ready
  }

  /** The default matrix `[[1, 2, 3], [4, 5, 6], [7, 8, 9]]`. */
  function DefaultMatrix(): Matrix
  {
    [[1, 2, 3], [4, 5, 6], [7, 8, 9]]
  }

  /**
   * For every matrix of two rows or more the last step is the swap of
   * `(n - 1, n / 2 - 1)` with `(n - 1, n - n / 2)`: when the steps run out
   * and the rotated view turns green, the line as written still shows it.
   */
  lemma LastSwapStillShown(n: nat)
    requires n >= 2
    ensures var d := RotationSteps(n);
            |d| > 0 && StatusAsWritten(d, |d|) == Swapping(n - 1, n / 2 - 1, n - 1, n - n / 2)
            && StatusOf(d, |d|) == Complete
  {
    var t, r := TransposeRows(n, n), ReverseRows(n, n);
    var last := ReverseRow(n, n - 1, n / 2);
    assert r == ReverseRows(n, n - 1) + last;
    assert last == ReverseRow(n, n - 1, n / 2 - 1) + [RotationStep(Swap, n - 1, n / 2 - 1, n - 1, n - n / 2)];
    assert (t + r)[|t + r| - 1] == last[|last| - 1];
  }

  class RotateImageVisualizer {
    var matrix: Matrix
    var step: int
    var isRunning: bool

    /** `rotationSteps`, recomputed from the matrix. */
    function Steps(): seq<RotationStep>
      reads this
    {
      RotationSteps(|matrix|)
    }

    /** The timer never carries the counter past the last step. */
    predicate Valid()
      reads this
    {
      0 <= step <= |Steps()|
    }

    /** The first render: the default matrix, step 0, paused. */
    constructor ()
      ensures matrix == DefaultMatrix() && step == 0 && !isRunning && Valid()
    {
      matrix := DefaultMatrix();
      step := 0;
      isRunning := false;
    }

    /** The effect on `[step, rotationSteps.length, isRunning]`, one timer period later. */
    method Tick()
      requires Valid()
      modifies this`step, this`isRunning
      ensures Valid()
      ensures old(isRunning) && old(step) < |Steps()| ==> step == old(step) + 1 && isRunning
      ensures !(old(isRunning) && old(step) < |Steps()|) ==> step == old(step)
      ensures old(step) >= |Steps()| ==> !isRunning
      ensures old(step) < |Steps()| ==> isRunning == old(isRunning)
    {
      if isRunning && step < |Steps()| {
        step := step + 1;
      } else if step >= |Steps()| {
        isRunning := false;
      }
    }

    /** `reset`: back to step 0, paused. */
    method Reset()
      modifies this`step, this`isRunning
      ensures step == 0 && !isRunning && Valid()
    {
      step := 0;
      isRunning := false;
    }

    /** The Start/Pause button, disabled once every step has been shown. */
    method ToggleRunning()
      modifies this`isRunning
      ensures step < |Steps()| ==> isRunning == !old(isRunning)
      ensures step >= |Steps()| ==> isRunning == old(isRunning)
    {
      if step < |Steps()| {
        isRunning := !isRunning;
      }
    }

    /** A new matrix from the input box, after which the animation is reset. */
    method SetMatrix(newMatrix: Matrix)
      modifies this
      ensures matrix == newMatrix && step == 0 && !isRunning && Valid()
    {
      matrix := newMatrix;
      Reset();
    }

    /** `getCellStyle`: cell `(i, j)` is drawn yellow while the step shown swaps it. */
    predicate Highlighted(i: int, j: int)
      reads this
    {
      0 < step <= |Steps()| && Steps()[step - 1].kind == Swap
      && ((i, j) == (Steps()[step - 1].i, Steps()[step - 1].j) || (i, j) == (Steps()[step - 1].i2, Steps()[step - 1].j2))
    }

    /** The rotated view is drawn green once every step has been shown. */
    predicate RotatedDone()
      reads this
    {
      step >= |Steps()|
    }

    /**
     * The line under the step counter as the component writes it: the
     * counter never passes the last step, so it never says "Rotation
     * complete!".
     */
    function StatusLineAsWritten(): (st: Status)
      reads this
      requires Valid()
      ensures st != Complete
      ensures st == Ready <==> step == 0
    {
      StatusAsWritten(Steps(), step)
    }

    /** The line under the step counter, corrected to say complete when the rotated view turns green. */
    function StatusLine(): (st: Status)
      reads this
      ensures st == Complete <==> RotatedDone()
    {
      StatusOf(Steps(), step)
    }
  }

  /**
   * The highlight marks what the step does: carrying out steps `0..k-1`
   * changes no cell that step `k` does not highlight.
   */
  lemma HighlightMarksSwap(v: RotateImageVisualizer, a: int, b: int)
    requires IsSquare(v.matrix, |v.matrix|) && 0 < v.step <= |v.Steps()| && !v.Highlighted(a, b)
    ensures At(Apply(v.matrix, v.Steps()[..v.step]), a, b) == At(Apply(v.matrix, v.Steps()[..v.step - 1]), a, b)
  {
    var k, steps := v.step, v.Steps();
    assert steps[..k] == steps[..k - 1] + [steps[k - 1]];
    ApplySnoc(v.matrix, steps[..k - 1], steps[k - 1]);
    RotationStepsShape(|v.matrix|);
    var z := Apply(v.matrix, steps[..k - 1]);
    if Names(z, steps[k - 1]) {
      SwapCellsAt(z, steps[k - 1], a, b);
    }
  }

  /** At the end of the animation, the swaps shown have turned the matrix into the rotated view. */
  lemma EndShowsRotation(v: RotateImageVisualizer)
    requires IsSquare(v.matrix, |v.matrix|) && v.RotatedDone() && v.Valid()
    ensures Apply(v.matrix, v.Steps()[..v.step]) == Rotated(v.matrix, |v.matrix|)
  {
    assert v.Steps()[..v.step] == RotationSteps(|v.matrix|);
    SwapsRotate(v.matrix, |v.matrix|);
  }
}
