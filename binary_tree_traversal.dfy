/**
 * `BinaryTreeTraversalVisualizer.tsx`: a fixed sample tree and a step cursor
 * over one of its traversals. Its `traverse` is the same accumulator
 * recursion as the tree editor's, so it is `TreeVisualizer.Traverse`.
 */
module BinaryTreeTraversal {
  import opened TreeTypes
  import opened TreeVisualizer

  /** The memoised sample tree: 1 with children 2 (4, 5) and 3 (6, 7). */
  function SampleTree(): Tree
  {
    Node(Node(Leaf(4), 2, Leaf(5)), 1, Node(Leaf(6), 3, Leaf(7)))
  }

  /** The three traversals of the sample tree. */
  lemma SampleInOrder()
    ensures Traverse(SampleTree(), InOrderTraversal, []) == [4, 2, 5, 1, 6, 3, 7]
  {
    var l, r := Node(Leaf(4), 2, Leaf(5)), Node(Leaf(6), 3, Leaf(7));
    assert InOrder(l) == [4, 2, 5] && InOrder(r) == [6, 3, 7];
    assert InOrder(SampleTree()) == [4, 2, 5, 1, 6, 3, 7];
    TraverseSpec(SampleTree(), InOrderTraversal, []);
    assert [] + InOrder(SampleTree()) == InOrder(SampleTree());
  }

  lemma SamplePreOrder()
    ensures Traverse(SampleTree(), PreOrderTraversal, []) == [1, 2, 4, 5, 3, 6, 7]
  {
    var l, r := Node(Leaf(4), 2, Leaf(5)), Node(Leaf(6), 3, Leaf(7));
    assert PreOrder(l) == [2, 4, 5] && PreOrder(r) == [3, 6, 7];
    assert PreOrder(SampleTree()) == [1, 2, 4, 5, 3, 6, 7];
    TraverseSpec(SampleTree(), PreOrderTraversal, []);
    assert [] + PreOrder(SampleTree()) == PreOrder(SampleTree());
  }

  lemma SamplePostOrder()
    ensures Traverse(SampleTree(), PostOrderTraversal, []) == [4, 5, 2, 6, 7, 3, 1]
  {
    var l, r := Node(Leaf(4), 2, Leaf(5)), Node(Leaf(6), 3, Leaf(7));
    assert PostOrder(l) == [4, 5, 2] && PostOrder(r) == [6, 7, 3];
    assert PostOrder(SampleTree()) == [4, 5, 2, 6, 7, 3, 1];
    TraverseSpec(SampleTree(), PostOrderTraversal, []);
    assert [] + PostOrder(SampleTree()) == PostOrder(SampleTree());
  }

  class TraversalPlayer {
    var traversalType: TraversalType
    var traversalSteps: seq<int>
    var currentStep: int

    /** The cursor is an index of the steps, or 0 while there are none. */
    ghost predicate Valid()
      reads this
    {
      0 <= currentStep && (currentStep < |traversalSteps| || currentStep == 0)
    }

    constructor ()
      ensures Valid()
      ensures traversalType == InOrderTraversal && traversalSteps == [] && currentStep == 0
    {
      traversalType := InOrderTraversal;
      traversalSteps := [];
      currentStep := 0;
    }

    /** Choosing a traversal type changes only the type. */
    method SetTraversalType(kind: TraversalType)
      modifies this`traversalType
      ensures traversalType == kind
    {
      traversalType := kind;
    }

    /** `startTraversal`. */
    method StartTraversal()
      modifies this`traversalSteps, this`currentStep
      ensures Valid()
      ensures traversalSteps == Order(SampleTree(), traversalType) && currentStep == 0
    {
      traversalSteps := Traverse(SampleTree(), traversalType, []);
      TraverseSpec(SampleTree(), traversalType, []);
      currentStep := 0;
    }

    /** `nextStep`: advances while a later step exists, never past the last index. */
    method NextStep()
      requires Valid()
      modifies this`currentStep
      ensures Valid()
      ensures currentStep == if old(currentStep) < |traversalSteps| - 1 then old(currentStep) + 1 else old(currentStep)
      ensures traversalSteps != [] ==> currentStep <= |traversalSteps| - 1
    {
      if currentStep < |traversalSteps| - 1 {
        currentStep := currentStep + 1;
      }
    }

    /** `resetTraversal`: back to the first step; the steps are kept. */
    method ResetTraversal()
      requires Valid()
      modifies this`currentStep
      ensures Valid() && currentStep == 0
    {
      currentStep := 0;
    }
  }
}
