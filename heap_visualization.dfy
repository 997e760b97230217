/**
 * `Datastructures/Heaps/HeapVisualization.tsx`: a binary min- or max-heap
 * stored in an array, with an animated insertion (one comparison or swap
 * per animation tick), an animated bottom-up build, and a switch between
 * min and max that rebuilds the heap.
 */
module HeapVisualization {
  import opened Wrappers
  import opened Sequences

  /** `Math.floor((i - 1) / 2)`: the parent slot of a slot `i > 0`. */
  function Parent(i: int): int
    requires i > 0
  {
    (i - 1) / 2
  }

  /** A parent value `a` may sit above a child value `b`. */
  predicate Ordered(isMin: bool, a: int, b: int)
  {
    if isMin then a <= b else a >= b
  }

  /** The first `n` slots of `h` form a heap. */
  predicate HeapPrefix(h: seq<int>, n: int, isMin: bool)
    requires n <= |h|
  {
    forall i :: 0 < i < n ==> Ordered(isMin, h[Parent(i)], h[i])
  }

  predicate IsHeap(h: seq<int>, isMin: bool)
  {
    HeapPrefix(h, |h|, isMin)
  }

  /**
   * The first `n` slots form a heap except that `h[c]` may be out of order
   * with its parent; `c`'s children are in order with `c`'s parent.
   */
  predicate HeapExcept(h: seq<int>, n: int, c: int, isMin: bool)
    requires n <= |h|
  {
    && (forall i :: 0 < i < n && i != c ==> Ordered(isMin, h[Parent(i)], h[i]))
    && (0 < c < n ==> forall i :: 0 < i < n && Parent(i) == c ==> Ordered(isMin, h[Parent(c)], h[i]))
  }

  /** Slot `a` is `c` or one of its ancestors. */
  predicate AncestorOf(a: int, c: int)
    decreases c
  {
    c >= 0 && (a == c || (c > 0 && AncestorOf(a, Parent(c))))
  }

  lemma ParentAncestor(c: int, index: int)
    requires c > 0 && AncestorOf(c, index)
    ensures AncestorOf(Parent(c), index)
    decreases index
  {
    if c != index {
      ParentAncestor(c, Parent(index));
    }
  }

  /** Swapping an out-of-order slot `c` with its parent moves the exception up to the parent. */
  lemma SwapUp(h: seq<int>, n: int, c: int, isMin: bool)
    requires 0 < c < n <= |h| && HeapExcept(h, n, c, isMin) && !Ordered(isMin, h[Parent(c)], h[c])
    ensures HeapExcept(Swap(h, c, Parent(c)), n, Parent(c), isMin)
  {
    var p := Parent(c);
    var r := Swap(h, c, p);
    forall i | 0 < i < n && i != p ensures Ordered(isMin, r[Parent(i)], r[i]) {
      if i == c {
      } else if Parent(i) == c {
        assert Ordered(isMin, h[p], h[i]);
      } else if Parent(i) == p {
        assert Ordered(isMin, h[p], h[i]);
      }
    }
    if 0 < p {
      forall i | 0 < i < n && Parent(i) == p ensures Ordered(isMin, r[Parent(p)], r[i]) {
        assert Ordered(isMin, h[Parent(p)], h[p]);
        if i != c {
          assert Ordered(isMin, h[p], h[i]);
        }
      }
    }
  }

  /** A slot in order with its parent, or the root, closes the exception. */
  lemma ExceptClosed(h: seq<int>, n: int, c: int, isMin: bool)
    requires 0 <= c < n <= |h| && HeapExcept(h, n, c, isMin)
    requires c > 0 ==> Ordered(isMin, h[Parent(c)], h[c])
    ensures HeapPrefix(h, n, isMin)
  {
  }

  /** A heap prefix of `n` slots is a heap of `n + 1` slots except at slot `n`. */
  lemma ExtendExcept(h: seq<int>, n: int, isMin: bool)
    requires 0 <= n < |h| && HeapPrefix(h, n, isMin)
    ensures HeapExcept(h, n + 1, n, isMin)
  {
  }

  /** `animationState`. */
  datatype AnimationState = Idle | Inserting | Comparing | Swapping | Done | Building

  class Heap {
    var heap: seq<int>
    var heapSize: int
    var isMinHeap: bool
    var animationState: AnimationState
    var currentValue: Option<int>
    var currentIndex: int
    var parentIndex: int
    var buildingStep: int

    /**
     * The state of each animation phase: at rest and when done the array is
     * a heap; while an inserted value rises it is a heap except at that
     * value; while building, a growing prefix is a heap.
     */
    ghost predicate Valid()
      reads this
    {
      && heapSize == |heap|
      && match animationState
         case Idle => IsHeap(heap, isMinHeap) && currentIndex == -1 && parentIndex == -1
         case Inserting => IsHeap(heap, isMinHeap) && currentValue.Some?
         case Comparing => 0 <= currentIndex < |heap| && HeapExcept(heap, |heap|, currentIndex, isMinHeap)
         case Swapping =>
           && 0 < currentIndex < |heap| && parentIndex == Parent(currentIndex)
           && HeapExcept(heap, |heap|, currentIndex, isMinHeap)
           && !Ordered(isMinHeap, heap[parentIndex], heap[currentIndex])
         case Done => IsHeap(heap, isMinHeap)
         case Building =>
           && buildingStep >= 1 && currentIndex == -1 && parentIndex == -1
           && HeapPrefix(heap, if buildingStep < |heap| then buildingStep else |heap|, isMinHeap)
    }

    /** How many animation ticks are left at most before the animation rests. */
    ghost function Measure(): nat
      reads this
    {
      match animationState
      case Idle => 0
      case Done => 1
      case Inserting => 2 * |heap| + 3
      case Comparing => if currentIndex < 0 then 2 else 2 * currentIndex + 2
      case Swapping => if currentIndex < 0 then 1 else 2 * currentIndex + 1
      case Building => if buildingStep < |heap| then |heap| - buildingStep + 1 else 1
    }

    /** The sketch's initial closure variables: an empty min-heap at rest. */
    constructor ()
      ensures Valid() && heap == [] && isMinHeap && animationState == Idle
      ensures currentValue.None? && currentIndex == -1 && parentIndex == -1 && buildingStep == 0
    {
      heap, heapSize := [], 0;
      isMinHeap := true;
      animationState := Idle;
      currentValue := None;
      currentIndex, parentIndex := -1, -1;
      buildingStep := 0;
    }

    /** `startInsertion`: ignored unless at rest; otherwise the insertion animation begins with `v`. */
    method StartInsertion(v: int)
      requires Valid()
      modifies this
      ensures Valid() && heap == old(heap) && isMinHeap == old(isMinHeap)
      ensures old(animationState) != Idle ==> unchanged(this)
      ensures old(animationState) == Idle ==> animationState == Inserting && currentValue == Some(v)
      ensures currentIndex == old(currentIndex) && parentIndex == old(parentIndex) && buildingStep == old(buildingStep)
    {
      if animationState != Idle {
        return;
      }
      currentValue := Some(v);
      animationState := Inserting;
    }

    /**
     * `nextAnimationStep`: one tick of the animation. Every tick away from
     * rest lowers `Measure`, so every animation comes to rest; the heap
     * only changes by appending the inserted value and by swaps.
     */
    method NextAnimationStep()
      requires Valid()
      modifies this
      ensures Valid() && isMinHeap == old(isMinHeap)
      ensures old(animationState) == Idle ==> unchanged(this)
      ensures old(animationState) != Idle ==> Measure() < old(Measure())
      ensures old(animationState) == Inserting ==>
                && animationState == Comparing && currentIndex == |old(heap)|
                && heap == old(heap) + [old(currentValue).value]
      ensures old(animationState) != Inserting ==> multiset(heap) == multiset(old(heap))
      ensures old(animationState) == Comparing ==>
                && heap == old(heap)
                && if old(currentIndex) > 0 && !Ordered(isMinHeap, old(heap)[Parent(old(currentIndex))], old(heap)[old(currentIndex)])
                   then animationState == Swapping && currentIndex == old(currentIndex)
                   else animationState == Done
      ensures old(animationState) == Swapping ==>
                && animationState == Comparing && currentIndex == old(parentIndex)
                && heap == Swap(old(heap), old(currentIndex), old(parentIndex))
      ensures old(animationState) == Done ==> animationState == Idle && heap == old(heap)
      ensures old(animationState) == Building ==>
                if old(buildingStep) < |old(heap)| then animationState == Building && buildingStep == old(buildingStep) + 1
                else animationState == Idle && heap == old(heap)
    {
      match animationState {
        case Idle =>
        case Inserting => InsertTick();
        case Comparing => CompareTick();
        case Swapping => SwapTick();
        case Done =>
          animationState := Idle;
          currentIndex, parentIndex := -1, -1;
        case Building => BuildTick();
      }
    }

    /** The inserting tick: the value goes into the first free slot, where it is compared next. */
    method InsertTick()
      requires Valid() && animationState == Inserting
      modifies this
      ensures Valid() && animationState == Comparing && isMinHeap == old(isMinHeap)
      ensures heap == old(heap) + [old(currentValue).value] && currentIndex == |old(heap)|
    {
      ExtendExcept(heap + [currentValue.value], |heap|, isMinHeap);
      heap := heap + [currentValue.value];
      currentIndex := heapSize;
      heapSize := heapSize + 1;
      animationState := Comparing;
    }

    /** The comparing tick: swap next if the value is out of order with its parent, else done. */
    method CompareTick()
      requires Valid() && animationState == Comparing
      modifies this
      ensures Valid() && heap == old(heap) && isMinHeap == old(isMinHeap) && currentIndex == old(currentIndex)
      ensures if currentIndex > 0 && !Ordered(isMinHeap, heap[Parent(currentIndex)], heap[currentIndex])
              then animationState == Swapping else animationState == Done
    {
      if currentIndex > 0 {
        parentIndex := Parent(currentIndex);
        var needSwap := if isMinHeap then heap[currentIndex] < heap[parentIndex]
                        else heap[currentIndex] > heap[parentIndex];
        if needSwap {
          animationState := Swapping;
        } else {
          ExceptClosed(heap, |heap|, currentIndex, isMinHeap);
          animationState := Done;
        }
      } else {
        ExceptClosed(heap, |heap|, currentIndex, isMinHeap);
        animationState := Done;
      }
    }

    /** The swapping tick: the value trades places with its parent and is compared again there. */
    method SwapTick()
      requires Valid() && animationState == Swapping
      modifies this
      ensures Valid() && animationState == Comparing && isMinHeap == old(isMinHeap)
      ensures currentIndex == old(parentIndex) && currentIndex < old(currentIndex)
      ensures heap == Swap(old(heap), old(currentIndex), old(parentIndex))
    {
      SwapUp(heap, |heap|, currentIndex, isMinHeap);
      heap := Swap(heap, currentIndex, parentIndex);
      currentIndex := parentIndex;
      animationState := Comparing;
    }

    /** The building tick: the next slot rises into the heap prefix, or the build ends. */
    method BuildTick()
      requires Valid() && animationState == Building
      modifies this
      ensures Valid() && isMinHeap == old(isMinHeap) && |heap| == |old(heap)| && multiset(heap) == multiset(old(heap))
      ensures if old(buildingStep) < |old(heap)| then animationState == Building && buildingStep == old(buildingStep) + 1
              else animationState == Idle && heap == old(heap)
    {
      if buildingStep < |heap| {
        HeapifyUp(buildingStep);
        buildingStep := buildingStep + 1;
      } else {
        animationState := Idle;
      }
    }

    /**
     * `heapifyUp(index)`: the value at `index` rises along its ancestors
     * while it is out of order with its parent. Given a heap of the slots
     * before `index`, the slots up to `index` form a heap; only slots on the
     * path from `index` to the root change, and only by exchanges.
     */
    method HeapifyUp(index: int)
      requires 0 <= index < |heap| && HeapPrefix(heap, index, isMinHeap)
      modifies this
      ensures |heap| == |old(heap)| && multiset(heap) == multiset(old(heap))
      ensures HeapPrefix(heap, index + 1, isMinHeap)
      ensures forall i :: 0 <= i < |heap| && !AncestorOf(i, index) ==> heap[i] == old(heap)[i]
      ensures heapSize == old(heapSize) && isMinHeap == old(isMinHeap) && animationState == old(animationState)
      ensures currentValue == old(currentValue) && currentIndex == old(currentIndex)
      ensures parentIndex == old(parentIndex) && buildingStep == old(buildingStep)
    {
      ExtendExcept(heap, index, isMinHeap);
      var cur := index;
      while cur > 0
        invariant 0 <= cur <= index && AncestorOf(cur, index)
        invariant |heap| == |old(heap)| && multiset(heap) == multiset(old(heap))
        invariant HeapExcept(heap, index + 1, cur, isMinHeap)
        invariant forall i :: 0 <= i < |heap| && !AncestorOf(i, index) ==> heap[i] == old(heap)[i]
        invariant heapSize == old(heapSize) && isMinHeap == old(isMinHeap) && animationState == old(animationState)
        invariant currentValue == old(currentValue) && currentIndex == old(currentIndex)
        invariant parentIndex == old(parentIndex) && buildingStep == old(buildingStep)
      {
        var p := Parent(cur);
        if (isMinHeap && heap[cur] >= heap[p]) || (!isMinHeap && heap[cur] <= heap[p]) {
          break;
        }
        SwapUp(heap, index + 1, cur, isMinHeap);
        ParentAncestor(cur, index);
        heap := Swap(heap, cur, p);
        cur := p;
      }
      ExceptClosed(heap, index + 1, cur, isMinHeap);
    }

    /** `insertToHeap`: appends `value` and lets it rise; the heap stays a heap holding one more value. */
    method InsertToHeap(value: int)
      requires Valid() && animationState == Idle
      modifies this
      ensures Valid() && animationState == Idle && isMinHeap == old(isMinHeap)
      ensures heapSize == old(heapSize) + 1 && multiset(heap) == multiset(old(heap)) + multiset{value}
      ensures currentValue == old(currentValue) && buildingStep == old(buildingStep)
    {
      heap := heap + [value];
      heapSize := heapSize + 1;
      HeapifyUp(|heap| - 1);
    }

    /** `resetHeap`: an empty heap at rest with no highlighted slots. */
    method ResetHeap()
      modifies this
      ensures Valid() && heap == [] && heapSize == 0 && animationState == Idle
      ensures currentIndex == -1 && parentIndex == -1
      ensures isMinHeap == old(isMinHeap) && currentValue == old(currentValue) && buildingStep == old(buildingStep)
    {
      heap, heapSize := [], 0;
      animationState := Idle;
      currentIndex, parentIndex := -1, -1;
    }

    /**
     * `toggleHeapType`: ignored unless at rest; otherwise the heap kind
     * flips and the same values are inserted again, one by one, into an
     * empty heap of the new kind.
     */
    method ToggleHeapType()
      requires Valid()
      modifies this
      ensures Valid()
      ensures old(animationState) != Idle ==> unchanged(this)
      ensures old(animationState) == Idle ==>
                && isMinHeap == !old(isMinHeap) && animationState == Idle
                && multiset(heap) == multiset(old(heap)) && IsHeap(heap, isMinHeap)
    {
      if animationState != Idle {
        return;
      }
      isMinHeap := !isMinHeap;
      var oldHeap := heap;
      ResetHeap();
      for i := 0 to |oldHeap|
        invariant Valid() && animationState == Idle && isMinHeap == !old(isMinHeap)
        invariant multiset(heap) == multiset(oldHeap[..i])
      {
        InsertToHeap(oldHeap[i]);
        assert oldHeap[..i + 1] == oldHeap[..i] + [oldHeap[i]];
      }
      assert oldHeap[..|oldHeap|] == oldHeap;
    }

    /** `buildHeapFromArray`: the array's values in order, building from slot 1 on. */
    method BuildHeapFromArray(arr: seq<int>)
      modifies this
      ensures Valid() && heap == arr && heapSize == |arr| && buildingStep == 1 && animationState == Building
      ensures isMinHeap == old(isMinHeap) && currentIndex == -1 && parentIndex == -1
    {
      ResetHeap();
      heap, heapSize := arr, |arr|;
      buildingStep := 1;
      animationState := Building;
    }
  }
}
