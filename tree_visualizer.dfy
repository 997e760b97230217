/**
 * `TreeVisualizer.tsx`: the tree editor's state (root, highlighted value,
 * traversal cursor) and its handlers. The component's React state becomes the
 * fields of one object; each handler is a method.
 */
module TreeVisualizer {
  import opened Wrappers
  import opened TreeTypes
  import opened TreeOperations

  datatype TraversalType = InOrderTraversal | PreOrderTraversal | PostOrderTraversal

  /** The operations offered by the tree controls. */
  datatype Operation = Insert | Delete | Search

  /** The reference order each traversal type lists. */
  function Order(t: Tree, kind: TraversalType): seq<int>
  {
    match kind
    case InOrderTraversal => InOrder(t)
    case PreOrderTraversal => PreOrder(t)
    case PostOrderTraversal => PostOrder(t)
  }

  /**
   * `traverse(node, type, steps)`: the recursion that pushes values onto the
   * accumulator `steps` and returns it. The result is the accumulator followed
   * by the traversal of `t`.
   */
  function Traverse(t: Tree, kind: TraversalType, steps: seq<int>): (r: seq<int>)
    // the accumulator is kept in front, and one value is pushed per node
    ensures |r| == |steps| + Size(t) && r[..|steps|] == steps
  {
    match t
    case Nil => steps
    case Node(l, v, rt) =>
      match kind
      case PreOrderTraversal => Traverse(rt, kind, Traverse(l, kind, steps + [v]))
      case InOrderTraversal => Traverse(rt, kind, Traverse(l, kind, steps) + [v])
      case PostOrderTraversal => Traverse(rt, kind, Traverse(l, kind, steps)) + [v]
  }

  /** The result of `traverse` is the accumulator followed by the traversal order of `t`. */
  lemma TraverseSpec(t: Tree, kind: TraversalType, steps: seq<int>)
    ensures Traverse(t, kind, steps) == steps + Order(t, kind)
  {
    match kind
    case PreOrderTraversal => TraversePre(t, steps);
    case InOrderTraversal => TraverseIn(t, steps);
    case PostOrderTraversal => TraversePost(t, steps);
  }

  lemma {:induction false} TraversePre(t: Tree, steps: seq<int>)
    ensures Traverse(t, PreOrderTraversal, steps) == steps + PreOrder(t)
  {
    if t.Node? {
      var l, v, rt := t.left, t.value, t.right;
      TraversePre(l, steps + [v]);
      TraversePre(rt, steps + [v] + PreOrder(l));
      assert steps + [v] + PreOrder(l) + PreOrder(rt) == steps + ([v] + PreOrder(l) + PreOrder(rt));
    }
  }

  lemma {:induction false} TraverseIn(t: Tree, steps: seq<int>)
    ensures Traverse(t, InOrderTraversal, steps) == steps + InOrder(t)
  {
    if t.Node? {
      var l, v, rt := t.left, t.value, t.right;
      TraverseIn(l, steps);
      TraverseIn(rt, steps + InOrder(l) + [v]);
      assert steps + InOrder(l) + [v] + InOrder(rt) == steps + (InOrder(l) + [v] + InOrder(rt));
    }
  }

  lemma {:induction false} TraversePost(t: Tree, steps: seq<int>)
    ensures Traverse(t, PostOrderTraversal, steps) == steps + PostOrder(t)
  {
    if t.Node? {
      var l, v, rt := t.left, t.value, t.right;
      TraversePost(l, steps);
      TraversePost(rt, steps + PostOrder(l));
      assert steps + PostOrder(l) + PostOrder(rt) + [v] == steps + (PostOrder(l) + PostOrder(rt) + [v]);
    }
  }

  /** Every traversal lists every node exactly once; pre-order starts and post-order ends with the root. */
  lemma TraversalShape(t: Tree, kind: TraversalType)
    ensures |Traverse(t, kind, [])| == Size(t)
    ensures multiset(Traverse(t, kind, [])) == Values(t)
    ensures t.Node? && kind == PreOrderTraversal ==> Traverse(t, kind, [])[0] == t.value
    ensures t.Node? && kind == PostOrderTraversal ==> Traverse(t, kind, [])[Size(t) - 1] == t.value
  {
    TraverseSpec(t, kind, []);
    OrdersListEveryNode(t);
  }

  /** The tree `resetTree` installs. */
  function InitialTree(): Tree
  {
    Node(Node(Leaf(20), 30, Leaf(40)), 50, Node(Leaf(60), 70, Leaf(80)))
  }

  /** The initial tree is a search tree listing 20 to 80 in order. */
  lemma InitialTreeIsSearchTree()
    ensures SearchTree(InitialTree())
    ensures Traverse(InitialTree(), InOrderTraversal, []) == [20, 30, 40, 50, 60, 70, 80]
  {
    assert InOrder(Node(Leaf(20), 30, Leaf(40))) == [20, 30, 40];
    assert InOrder(Node(Leaf(60), 70, Leaf(80))) == [60, 70, 80];
    TraverseSpec(InitialTree(), InOrderTraversal, []);
  }

  class TreeVisualizerState {
    var treeType: TreeType
    var root: Tree
    var highlightedNode: Option<int>
    var traversalType: TraversalType
    var traversalSteps: seq<int>
    var currentStep: int
    var isTraversing: bool

    /** The cursor is -1 (not started) or an index of the steps (0 also when the steps are empty). */
    ghost predicate Valid()
      reads this
    {
      -1 <= currentStep && (currentStep < |traversalSteps| || currentStep <= 0)
    }

    /** The component's first render: a "binary" tree, after `resetTree` has run. */
    constructor ()
      ensures Valid()
      ensures treeType == Binary && root == InitialTree() && highlightedNode == None
      ensures traversalType == InOrderTraversal && traversalSteps == [] && currentStep == -1 && !isTraversing
    {
      treeType := Binary;
      root := InitialTree();
      highlightedNode := None;
      traversalType := InOrderTraversal;
      traversalSteps := [];
      currentStep := -1;
      isTraversing := false;
    }

    /** `resetTree`. */
    method ResetTree()
      modifies this
      ensures Valid()
      ensures root == InitialTree() && highlightedNode == None
      ensures traversalSteps == [] && currentStep == -1 && !isTraversing
      ensures treeType == old(treeType) && traversalType == old(traversalType)
    {
      root := InitialTree();
      highlightedNode := None;
      traversalSteps := [];
      currentStep := -1;
      isTraversing := false;
    }

    /** Choosing a tree type: the effect on `treeType` runs `resetTree`. */
    method SetTreeType(t: TreeType)
      modifies this
      ensures Valid()
      ensures treeType == t && root == InitialTree() && highlightedNode == None
      ensures traversalSteps == [] && currentStep == -1 && !isTraversing
      ensures traversalType == old(traversalType)
    {
      treeType := t;
      ResetTree();
    }

    /**
     * `handleOperation(op, val)`. `coins` stands for `Math.random()` in the
     * "binary" insert. Insert highlights the value, delete clears the
     * highlight, search highlights the value exactly when it was found.
     */
    method HandleOperation(op: Operation, val: int, coins: nat -> bool)
      requires Valid()
      modifies this`root, this`highlightedNode
      ensures Valid()
      ensures op == Insert ==>
        (root == (if treeType == Avl then AvlInsert(old(root), val) else Inserted(old(root), val, treeType, coins, 0))
         && highlightedNode == Some(val))
      ensures op == Delete ==> root == DeleteNode(old(root), val, treeType) && highlightedNode == None
      ensures op == Search ==>
        (root == old(root) && highlightedNode == (if OnSearchPath(old(root), val) then Some(val) else None))
    {
      match op
      case Insert =>
        root := InsertNode(root, val, treeType, coins);
        highlightedNode := Some(val);
      case Delete =>
        root := DeleteNode(root, val, treeType);
        highlightedNode := None;
      case Search =>
        var found := SearchNode(root, val);
        highlightedNode := if found then Some(val) else None;
    }

    /** The timeout that insert and search start: two seconds later the highlight goes, nothing else changes. */
    method ClearHighlight()
      modifies this`highlightedNode
      ensures highlightedNode == None
    {
      highlightedNode := None;
    }

    /** `startTraversal`: lists the current tree in the chosen order and moves to the first step. */
    method StartTraversal()
      modifies this`traversalSteps, this`currentStep, this`isTraversing, this`highlightedNode
      ensures Valid()
      ensures traversalSteps == Order(root, traversalType) && currentStep == 0 && isTraversing
      ensures highlightedNode == if traversalSteps == [] then None else Some(traversalSteps[0])
    {
      var steps := Traverse(root, traversalType, []);
      TraverseSpec(root, traversalType, []);
      traversalSteps := steps;
      currentStep := 0;
      isTraversing := true;
      highlightedNode := if steps == [] then None else Some(steps[0]);
    }

    /** `stepForward`. */
    method StepForward()
      requires Valid()
      modifies this`currentStep, this`isTraversing, this`highlightedNode
      ensures Valid()
      ensures old(currentStep) + 1 < |traversalSteps| ==>
        currentStep == old(currentStep) + 1 && highlightedNode == Some(traversalSteps[currentStep])
        && isTraversing == old(isTraversing)
      ensures old(currentStep) + 1 >= |traversalSteps| ==>
        currentStep == old(currentStep) && !isTraversing && highlightedNode == None
    {
      var next := currentStep + 1;
      if next < |traversalSteps| {
        currentStep := next;
        highlightedNode := Some(traversalSteps[next]);
      } else {
        isTraversing := false;
        highlightedNode := None;
      }
    }

    /** `pauseTraversal`. */
    method PauseTraversal()
      modifies this`isTraversing
      ensures !isTraversing
    {
      isTraversing := false;
    }

    /** `resetTraversal`. */
    method ResetTraversal()
      modifies this`currentStep, this`isTraversing, this`highlightedNode, this`traversalSteps
      ensures Valid()
      ensures currentStep == -1 && !isTraversing && highlightedNode == None && traversalSteps == []
    {
      currentStep := -1;
      isTraversing := false;
      highlightedNode := None;
      traversalSteps := [];
    }

    /** Choosing a traversal type resets the traversal. */
    method SetTraversalType(kind: TraversalType)
      modifies this`traversalType, this`currentStep, this`isTraversing, this`highlightedNode, this`traversalSteps
      ensures Valid()
      ensures traversalType == kind && currentStep == -1 && !isTraversing && traversalSteps == []
    {
      traversalType := kind;
      ResetTraversal();
    }

    /** One period of the interval: it steps while traversing and the cursor is inside the steps. */
    method Tick()
      requires Valid()
      modifies this`currentStep, this`isTraversing, this`highlightedNode
      ensures Valid()
      ensures !(old(isTraversing) && old(currentStep) < |traversalSteps|) ==>
        currentStep == old(currentStep) && isTraversing == old(isTraversing) && highlightedNode == old(highlightedNode)
      ensures old(isTraversing) && old(currentStep) + 1 < |traversalSteps| ==>
      currentStep == old(currentStep) + 1 && highlightedNode == Some(traversalSteps[currentStep]) && isTraversing
    ensures old(isTraversing) && old(currentStep) < |traversalSteps| && old(currentStep) + 1 >= |traversalSteps| ==>
      currentStep == old(currentStep) && !isTraversing && highlightedNode == None
    {
      if isTraversing && currentStep < |traversalSteps| {
        StepForward();
      }
    }
  }
}
