/**
 * `treeOperations.ts`: insertion, deletion and search on the visualizer's
 * binary trees, with the AVL rebalancing helpers. Trees are values here; the
 * source rewrites child pointers in place, which the value model replaces by
 * rebuilding the path (see `Rebuild` and `Plug`).
 */
module TreeOperations {
  import opened TreeTypes

  // ---------------------------------------------------------------- height and rotations

  /** `getBalance`: height of the left child minus height of the right child; 0 for `null`. */
  function BalanceFactor(t: Tree): (b: int)
    // the two sides differ by less than the height of the node
    ensures t.Nil? ==> b == 0
    ensures t.Node? ==> 0 < Height(t) + b && b < Height(t)
  {
    if t.Nil? then 0 else Height(t.left) - Height(t.right)
  }

  /** The height of a tree is at most its node count and is 0 only for the empty tree. */
  lemma {:induction false} HeightBounds(t: Tree)
    ensures Height(t) <= Size(t)
    ensures Height(t) == 0 <==> t.Nil?
  {
    if t.Node? {
      HeightBounds(t.left);
      HeightBounds(t.right);
    }
  }

  /** `rotateRight(y)`: the left child `x` becomes the root and `y` its right child. */
  function RotateRight(y: Tree): (r: Tree)
    requires y.Node? && y.left.Node?
    ensures r.Node? && r.value == y.left.value && r.right.Node? && r.right.value == y.value
    ensures InOrder(r) == InOrder(y) && Keys(r) == Keys(y)
  {
    var x := y.left;
    Node(x.left, x.value, Node(x.right, y.value, y.right))
  }

  /** `rotateLeft(x)`: the right child `y` becomes the root and `x` its left child. */
  function RotateLeft(x: Tree): (r: Tree)
    requires x.Node? && x.right.Node?
    ensures r.Node? && r.value == x.right.value && r.left.Node? && r.left.value == x.value
    ensures InOrder(r) == InOrder(x) && Keys(r) == Keys(x)
  {
    var y := x.right;
    Node(Node(x.left, x.value, y.left), y.value, y.right)
  }

  lemma RotateRightKeepsSearchTree(y: Tree)
    requires y.Node? && y.left.Node? && SearchTree(y)
    ensures SearchTree(RotateRight(y))
  {
    var Node(Node(a, xv, b), yv, c) := y;
    assert xv in Keys(y.left) && Keys(b) <= Keys(y.left);
    assert forall k :: k in Keys(b) ==> k < yv;
    assert forall k :: k in Keys(c) ==> xv < k;
    assert SearchTree(Node(b, yv, c));
  }

  lemma RotateLeftKeepsSearchTree(x: Tree)
    requires x.Node? && x.right.Node? && SearchTree(x)
    ensures SearchTree(RotateLeft(x))
  {
    var Node(a, xv, Node(b, yv, c)) := x;
    assert yv in Keys(x.right) && Keys(b) <= Keys(x.right);
    assert forall k :: k in Keys(b) ==> xv < k;
    assert forall k :: k in Keys(a) ==> k < yv;
    assert SearchTree(Node(a, xv, b));
  }

  /** A left-heavy node has a left child, a right-heavy one a right child. */
  lemma HeavySideExists(t: Tree)
    ensures BalanceFactor(t) > 0 ==> t.left.Node?
    ensures BalanceFactor(t) < 0 ==> t.right.Node?
  {
  }

  /** The left child after the Left-Right pre-rotation of `balance`. */
  function LeftAfterPreRotation(t: Tree): (l: Tree)
    requires t.Node? && BalanceFactor(t) > 1
    ensures l.Node? && InOrder(l) == InOrder(t.left) && Keys(l) == Keys(t.left)
  {
    HeavySideExists(t);
    HeavySideExists(t.left);
    if BalanceFactor(t.left) < 0 then RotateLeft(t.left) else t.left
  }

  /** The right child after the Right-Left pre-rotation of `balance`. */
  function RightAfterPreRotation(t: Tree): (r: Tree)
    requires t.Node? && BalanceFactor(t) < -1
    ensures r.Node? && InOrder(r) == InOrder(t.right) && Keys(r) == Keys(t.right)
  {
    HeavySideExists(t);
    HeavySideExists(t.right);
    if BalanceFactor(t.right) > 0 then RotateRight(t.right) else t.right
  }

  /**
   * `balance(node)`: the subtree the call returns. A node whose balance factor
   * lies in [-1, 1] comes back unchanged; otherwise one or two rotations
   * rearrange it without changing its in-order sequence.
   */
  function Balance(t: Tree): (r: Tree)
    requires t.Node?
    ensures -1 <= BalanceFactor(t) <= 1 ==> r == t
    ensures r.Node? && InOrder(r) == InOrder(t) && Keys(r) == Keys(t)
  {
    if BalanceFactor(t) > 1 then RotateRight(Node(LeftAfterPreRotation(t), t.value, t.right))
    else if BalanceFactor(t) < -1 then RotateLeft(Node(t.left, t.value, RightAfterPreRotation(t)))
    else t
  }

  lemma BalanceKeepsSearchTree(t: Tree)
    requires t.Node? && SearchTree(t)
    ensures SearchTree(Balance(t))
  {
    if BalanceFactor(t) > 1 {
      if BalanceFactor(t.left) < 0 {
        RotateLeftKeepsSearchTree(t.left);
      }
      RotateRightKeepsSearchTree(Node(LeftAfterPreRotation(t), t.value, t.right));
    } else if BalanceFactor(t) < -1 {
      if BalanceFactor(t.right) > 0 {
        RotateRightKeepsSearchTree(t.right);
      }
      RotateLeftKeepsSearchTree(Node(t.left, t.value, RightAfterPreRotation(t)));
    }
  }

  /**
   * What the node object handed to `balance` looks like afterwards. The
   * rotations rewrite its child pointers in place, so a parent that still
   * points at this object sees this subtree, not the one `balance` returned.
   */
  function BalancedInPlace(t: Tree): (r: Tree)
    requires t.Node?
    ensures r.Node? && r.value == t.value
    ensures BalanceFactor(t) > 1 ==> r == Balance(t).right
    ensures BalanceFactor(t) < -1 ==> r == Balance(t).left
    ensures -1 <= BalanceFactor(t) <= 1 ==> r == t
  {
    if BalanceFactor(t) > 1 then Node(LeftAfterPreRotation(t).right, t.value, t.right)
    else if BalanceFactor(t) < -1 then Node(t.left, t.value, RightAfterPreRotation(t).left)
    else t
  }

  // ---------------------------------------------------------------- insertion

  /** The branch test of `insertNode`: a coin flip (in "binary" mode only) or a smaller value sends it left. */
  predicate GoesLeft(mode: TreeType, coin: bool, v: int, x: int)
  {
    (mode == Binary && coin) || v < x
  }

  /**
   * The tree `insertNode` produces outside "avl" mode. `coins(d)` is the
   * outcome of `Math.random() < 0.5` at depth `d`.
   */
  function Inserted(t: Tree, v: int, mode: TreeType, coins: nat -> bool, depth: nat): (r: Tree)
    ensures r.Node?
  {
    match t
    case Nil => Leaf(v)
    case Node(l, x, r) =>
      if GoesLeft(mode, coins(depth), v, x) then Node(Inserted(l, v, mode, coins, depth + 1), x, r)
      else Node(l, x, Inserted(r, v, mode, coins, depth + 1))
  }

  /** Inserting adds exactly one node, holding the value, and keeps every other value. */
  lemma {:induction false} InsertedAddsOneNode(t: Tree, v: int, mode: TreeType, coins: nat -> bool, depth: nat)
    ensures Values(Inserted(t, v, mode, coins, depth)) == Values(t) + multiset{v}
    ensures t.Nil? ==> Inserted(t, v, mode, coins, depth) == Leaf(v)
  {
    match t
    case Nil =>
    case Node(l, x, r) =>
      if GoesLeft(mode, coins(depth), v, x) {
        InsertedAddsOneNode(l, v, mode, coins, depth + 1);
      } else {
        InsertedAddsOneNode(r, v, mode, coins, depth + 1);
      }
  }

  /** The new leaf hangs below an existing node, so insertion grows the height by at most one. */
  lemma {:induction false} InsertedHeight(t: Tree, v: int, mode: TreeType, coins: nat -> bool, depth: nat)
    ensures Height(t) <= Height(Inserted(t, v, mode, coins, depth)) <= Height(t) + 1
  {
    match t
    case Nil =>
    case Node(l, x, r) =>
      if GoesLeft(mode, coins(depth), v, x) {
        InsertedHeight(l, v, mode, coins, depth + 1);
      } else {
        InsertedHeight(r, v, mode, coins, depth + 1);
      }
  }

  lemma {:induction false} InsertedSize(t: Tree, v: int, mode: TreeType, coins: nat -> bool, depth: nat)
    ensures Size(Inserted(t, v, mode, coins, depth)) == Size(t) + 1
  {
    match t
    case Nil =>
    case Node(l, x, r) =>
      if GoesLeft(mode, coins(depth), v, x) {
        InsertedSize(l, v, mode, coins, depth + 1);
      } else {
        InsertedSize(r, v, mode, coins, depth + 1);
      }
  }

  lemma {:induction false} InsertedKeys(t: Tree, v: int, mode: TreeType, coins: nat -> bool, depth: nat)
    ensures Keys(Inserted(t, v, mode, coins, depth)) == Keys(t) + {v}
  {
    match t
    case Nil =>
    case Node(l, x, r) =>
      InsertedKeys(l, v, mode, coins, depth + 1);
      InsertedKeys(r, v, mode, coins, depth + 1);
  }

  /** Outside "binary" mode an insert keeps the search order (equal keys go right). */
  lemma {:induction false} InsertedKeepsOrder(t: Tree, v: int, mode: TreeType, coins: nat -> bool, depth: nat)
    requires mode != Binary && Ordered(t)
    ensures Ordered(Inserted(t, v, mode, coins, depth))
  {
    if t.Node? {
      InsertedKeepsOrder(t.left, v, mode, coins, depth + 1);
      InsertedKeepsOrder(t.right, v, mode, coins, depth + 1);
      InsertedKeys(t.left, v, mode, coins, depth + 1);
      InsertedKeys(t.right, v, mode, coins, depth + 1);
    }
  }

  /** A new key inserted into a search tree leaves a search tree, and search then finds it. */
  lemma {:induction false} InsertedSearchTree(t: Tree, v: int, coins: nat -> bool, depth: nat)
    requires SearchTree(t) && v !in Keys(t)
    ensures SearchTree(Inserted(t, v, Bst, coins, depth))
    ensures OnSearchPath(Inserted(t, v, Bst, coins, depth), v)
  {
    if t.Node? {
      InsertedSearchTree(t.left, v, coins, depth + 1);
      InsertedSearchTree(t.right, v, coins, depth + 1);
      InsertedKeys(t.left, v, Bst, coins, depth + 1);
      InsertedKeys(t.right, v, Bst, coins, depth + 1);
    }
  }

  /** One node on the descent: the side taken, the node's value and the child not taken. */
  datatype Frame = Frame(wentLeft: bool, value: int, other: Tree)

  /** The node of a frame with `child` on the side taken. */
  function Rebuild(f: Frame, child: Tree): Tree
  {
    if f.wentLeft then Node(child, f.value, f.other) else Node(f.other, f.value, child)
  }

  /** Puts `t` back at the end of a root-first descent `path`. */
  function Plug(path: seq<Frame>, t: Tree): Tree
  {
    if path == [] then t else Rebuild(path[0], Plug(path[1..], t))
  }

  lemma {:induction false} PlugAppend(path: seq<Frame>, f: Frame, t: Tree)
    ensures Plug(path + [f], t) == Plug(path, Rebuild(f, t))
  {
    if path != [] {
      assert (path + [f])[1..] == path[1..] + [f];
      PlugAppend(path[1..], f, t);
    }
  }

  /**
   * The subtree that `insertNode`'s "avl" branch leaves behind the object at the
   * root of `c` (as written: balanced objects below the root are not re-linked).
   */
  function AvlDescend(c: Tree, v: int): (r: Tree)
    ensures r.Node?
    decreases c, 1
  {
    match c
    case Nil => Leaf(v)
    case Node(_, _, _) => BalancedInPlace(AvlStep(c, v))
  }

  /** The node `t` once the insert below it has finished, before it is balanced itself. */
  function AvlStep(t: Tree, v: int): (r: Tree)
    requires t.Node?
    ensures r.Node?
    decreases t, 0
  {
    if v < t.value then Node(AvlDescend(t.left, v), t.value, t.right)
    else Node(t.left, t.value, AvlDescend(t.right, v))
  }

  /** `insertNode(root, v, "avl")` as written: `root = path[0]` after balancing each path node. */
  function AvlInsertAsWritten(t: Tree, v: int): (r: Tree)
    ensures r.Node?
    // only the root is balanced: the result holds exactly the keys the descent below the root left
    ensures t.Node? ==> Keys(r) == Keys(AvlStep(t, v))
  {
    if t.Nil? then Leaf(v) else Balance(AvlStep(t, v))
  }

  /**
   * Inserting 25 in "avl" mode as written into the search tree that 10, 5,
   * 15, 20 build (see `AsWrittenFirstFour`) loses the keys 20 and 25.
   */
  lemma AvlInsertAsWrittenLosesKeys()
    ensures var t4 := Node(Leaf(5), 10, Node(Nil, 15, Leaf(20)));
      SearchTree(t4) && InOrder(AvlInsertAsWritten(t4, 25)) == [5, 10, 15]
  {
    AsWrittenFifth();
    FourKeysSearchTree();
    ThreeKeysInOrder();
  }

  lemma FourKeysSearchTree()
    ensures SearchTree(Node(Leaf(5), 10, Node(Nil, 15, Leaf(20))))
  {
    assert Keys(Leaf(5)) == {5} && Keys(Leaf(20)) == {20};
    var right := Node(Nil, 15, Leaf(20));
    assert SearchTree(right);
    assert Keys(right) == {15, 20};
  }

  lemma ThreeKeysInOrder()
    ensures InOrder(Node(Leaf(5), 10, Leaf(15))) == [5, 10, 15]
  {
    assert InOrder(Leaf(5)) == [5] && InOrder(Leaf(15)) == [15];
    assert InOrder(Node(Leaf(5), 10, Leaf(15))) == [5] + [10] + [15];
  }

  /** The first four inserts still give the expected search tree. */
  lemma AsWrittenFirstFour()
    ensures AvlInsertAsWritten(AvlInsertAsWritten(AvlInsertAsWritten(AvlInsertAsWritten(Nil, 10), 5), 15), 20)
            == Node(Leaf(5), 10, Node(Nil, 15, Leaf(20)))
  {
    assert AvlInsertAsWritten(Nil, 10) == Leaf(10);
    assert AvlInsertAsWritten(Leaf(10), 5) == Node(Leaf(5), 10, Nil);
    assert AvlInsertAsWritten(Node(Leaf(5), 10, Nil), 15) == Node(Leaf(5), 10, Leaf(15));
    assert AvlStep(Leaf(15), 20) == Node(Nil, 15, Leaf(20));
  }

  /** The fifth insert rotates at 15, and the rotated node is not linked back under 10. */
  lemma AsWrittenFifth()
    ensures AvlInsertAsWritten(Node(Leaf(5), 10, Node(Nil, 15, Leaf(20))), 25) == Node(Leaf(5), 10, Leaf(15))
  {
    var n20 := AvlStep(Leaf(20), 25);
    assert n20 == Node(Nil, 20, Leaf(25));
    assert AvlDescend(Leaf(20), 25) == n20;
    var n15 := AvlStep(Node(Nil, 15, Leaf(20)), 25);
    assert n15 == Node(Nil, 15, n20);
    assert BalanceFactor(n15) == -2;
    assert AvlDescend(Node(Nil, 15, Leaf(20)), 25) == Leaf(15);
    assert AvlStep(Node(Leaf(5), 10, Node(Nil, 15, Leaf(20))), 25) == Node(Leaf(5), 10, Leaf(15));
  }

  /** `insertNode`'s "avl" branch with each balanced subtree linked back into its parent. */
  function AvlInsert(t: Tree, v: int): (r: Tree)
    ensures r.Node?
  {
    match t
    case Nil => Leaf(v)
    case Node(l, x, rt) =>
      if v < x then Balance(Node(AvlInsert(l, v), x, rt)) else Balance(Node(l, x, AvlInsert(rt, v)))
  }

  /** The corrected AVL insert adds exactly the new key and keeps a search tree. */
  lemma {:induction false} AvlInsertSpec(t: Tree, v: int, coins: nat -> bool, depth: nat)
    requires SearchTree(t) && v !in Keys(t)
    ensures Keys(AvlInsert(t, v)) == Keys(t) + {v}
    ensures InOrder(AvlInsert(t, v)) == InOrder(Inserted(t, v, Avl, coins, depth))
    ensures SearchTree(AvlInsert(t, v))
  {
    if t.Node? {
      var l, x, rt := t.left, t.value, t.right;
      if v < x {
        AvlInsertSpec(l, v, coins, depth + 1);
        AvlBalancedLeft(l, x, rt, AvlInsert(l, v), Inserted(l, v, Avl, coins, depth + 1), v);
      } else {
        AvlInsertSpec(rt, v, coins, depth + 1);
        AvlBalancedRight(l, x, rt, AvlInsert(rt, v), Inserted(rt, v, Avl, coins, depth + 1), v);
      }
    }
  }

  /** Balancing after a new smaller key went into the left subtree. */
  lemma AvlBalancedLeft(l: Tree, x: int, rt: Tree, l2: Tree, li: Tree, v: int)
    requires SearchTree(Node(l, x, rt)) && v < x
    requires Keys(l2) == Keys(l) + {v} && SearchTree(l2) && InOrder(l2) == InOrder(li)
    ensures Keys(Balance(Node(l2, x, rt))) == Keys(Node(l, x, rt)) + {v}
    ensures InOrder(Balance(Node(l2, x, rt))) == InOrder(Node(li, x, rt))
    ensures SearchTree(Balance(Node(l2, x, rt)))
  {
    BalanceKeepsSearchTree(Node(l2, x, rt));
  }

  /** Balancing after a new larger key went into the right subtree. */
  lemma AvlBalancedRight(l: Tree, x: int, rt: Tree, r2: Tree, ri: Tree, v: int)
    requires SearchTree(Node(l, x, rt)) && v > x
    requires Keys(r2) == Keys(rt) + {v} && SearchTree(r2) && InOrder(r2) == InOrder(ri)
    ensures Keys(Balance(Node(l, x, r2))) == Keys(Node(l, x, rt)) + {v}
    ensures InOrder(Balance(Node(l, x, r2))) == InOrder(Node(l, x, ri))
    ensures SearchTree(Balance(Node(l, x, r2)))
  {
    BalanceKeepsSearchTree(Node(l, x, r2));
  }

  /**
   * `insertNode`: walks down from the root to an empty child and attaches a
   * new leaf there. In "avl" mode this is the corrected insert
   * (`AvlInsert`): every node on the path is balanced, deepest first, and
   * each balanced subtree is linked back into its parent. The source does
   * not relink them and returns only the balanced root, which loses keys
   * (`AvlInsertAsWritten`).
   */
  method InsertNode(root: Tree, v: int, mode: TreeType, coins: nat -> bool) returns (newRoot: Tree)
    ensures root.Nil? ==> newRoot == Leaf(v)
    ensures mode != Avl ==> newRoot == Inserted(root, v, mode, coins, 0)
    ensures mode == Avl ==> newRoot == AvlInsert(root, v)
  {
    if root.Nil? {
      return Leaf(v);
    }
    var current := root;
    var path: seq<Frame> := [];
    while current.Node?
      invariant Plug(path, current) == root
      invariant Inserted(root, v, mode, coins, 0) == Plug(path, Inserted(current, v, mode, coins, |path|))
      invariant mode == Avl ==> AvlInsert(root, v) == AvlPlug(path, AvlInsert(current, v))
      decreases current
    {
      var goLeft := GoesLeft(mode, coins(|path|), v, current.value);
      var frame := Frame(goLeft, current.value, if goLeft then current.right else current.left);
      var next := if goLeft then current.left else current.right;
      DescendStep(path, current, v, mode, coins, goLeft);
      path := path + [frame];
      current := next;
    }
    if mode != Avl {
      newRoot := Plug(path, Leaf(v));
    } else {
      var sub := Leaf(v);
      var i := |path|;
      assert path[..i] == path;
      while i > 0
        invariant 0 <= i <= |path|
        invariant AvlInsert(root, v) == AvlPlug(path[..i], sub)
      {
        i := i - 1;
        AvlPlugPrefix(path, i, sub);
        sub := Balance(Rebuild(path[i], sub));
      }
      newRoot := sub;
    }
  }

  /** One step of the descent of `insertNode`: the side taken becomes one more frame of the path. */
  lemma {:induction false} DescendStep(path: seq<Frame>, current: Tree, v: int, mode: TreeType, coins: nat -> bool, goLeft: bool)
    requires current.Node? && goLeft == GoesLeft(mode, coins(|path|), v, current.value)
    ensures var frame := Frame(goLeft, current.value, if goLeft then current.right else current.left);
            var next := if goLeft then current.left else current.right;
            && Plug(path + [frame], next) == Plug(path, current)
            && Plug(path + [frame], Inserted(next, v, mode, coins, |path| + 1))
               == Plug(path, Inserted(current, v, mode, coins, |path|))
            && (mode == Avl ==> AvlPlug(path + [frame], AvlInsert(next, v)) == AvlPlug(path, AvlInsert(current, v)))
  {
    var frame := Frame(goLeft, current.value, if goLeft then current.right else current.left);
    var next := if goLeft then current.left else current.right;
    PlugAppend(path, frame, next);
    PlugAppend(path, frame, Inserted(next, v, mode, coins, |path| + 1));
    AvlPlugAppend(path, frame, AvlInsert(next, v));
  }

  /** `Plug` for the corrected "avl" branch: every rebuilt node is balanced on the way up. */
  function AvlPlug(path: seq<Frame>, t: Tree): Tree
  {
    if path == [] then t else Balance(Rebuild(path[0], AvlPlug(path[1..], t)))
  }

  lemma {:induction false} AvlPlugAppend(path: seq<Frame>, f: Frame, t: Tree)
    ensures AvlPlug(path + [f], t) == AvlPlug(path, Balance(Rebuild(f, t)))
  {
    if path != [] {
      assert (path + [f])[1..] == path[1..] + [f];
      AvlPlugAppend(path[1..], f, t);
    }
  }

  /** The climb of `insertNode`: rebuilding and balancing frame `i` shortens the path by one. */
  lemma {:induction false} AvlPlugPrefix(path: seq<Frame>, i: int, t: Tree)
    requires 0 <= i < |path|
    ensures AvlPlug(path[..i + 1], t) == AvlPlug(path[..i], Balance(Rebuild(path[i], t)))
  {
    assert path[..i + 1] == path[..i] + [path[i]];
    AvlPlugAppend(path[..i], path[i], t);
  }

  // ---------------------------------------------------------------- search, minimum, deletion

  /** The value is met on the path `searchNode` walks: left when smaller, right otherwise. */
  predicate OnSearchPath(t: Tree, v: int)
  {
    match t
    case Nil => false
    case Node(l, x, r) => x == v || (if v < x then OnSearchPath(l, v) else OnSearchPath(r, v))
  }

  /** On an ordered tree the search path finds a value exactly when it is in the tree. */
  lemma {:induction false} SearchPathFindsKeys(t: Tree, v: int)
    requires Ordered(t)
    ensures OnSearchPath(t, v) <==> v in Keys(t)
  {
    if t.Node? {
      SearchPathFindsKeys(t.left, v);
      SearchPathFindsKeys(t.right, v);
    }
  }

  /** `searchNode`: walks down from the root and reports whether it met the value. */
  method SearchNode(root: Tree, v: int) returns (found: bool)
    ensures found == OnSearchPath(root, v)
  {
    var current := root;
    while current.Node?
      invariant OnSearchPath(root, v) == OnSearchPath(current, v)
      decreases current
    {
      if current.value == v {
        return true;
      }
      current := if v < current.value then current.left else current.right;
    }
    return false;
  }

  /** The node reached by following left children from `t`. */
  function Leftmost(t: Tree): (m: Tree)
    requires t.Node?
    ensures m.Node? && m.left.Nil?
  {
    if t.left.Nil? then t else Leftmost(t.left)
  }

  /** In an ordered tree the leftmost node holds the least key. */
  lemma {:induction false} LeftmostIsLeast(t: Tree)
    requires t.Node? && Ordered(t)
    ensures Leftmost(t).value in Keys(t)
    ensures forall k :: k in Keys(t) ==> Leftmost(t).value <= k
  {
    if t.left.Node? {
      LeftmostIsLeast(t.left);
    }
  }

  /** `findMin`: follows left children from a non-null node. */
  method FindMin(node: Tree) returns (minNode: Tree)
    requires node.Node?
    ensures minNode == Leftmost(node)
  {
    minNode := node;
    while minNode.left.Node?
      invariant minNode.Node? && Leftmost(minNode) == Leftmost(node)
      decreases minNode
    {
      minNode := minNode.left;
    }
  }

  /** `treeType === "avl" ? balance(root) : root`. */
  function Rebalanced(t: Tree, mode: TreeType): Tree
    requires t.Node?
  {
    if mode == Avl then Balance(t) else t
  }

  /**
   * `deleteNode`: removes the first node met on the search path whose value
   * matches. A node with two children takes the value of the leftmost node of
   * its right subtree, which is then deleted from that subtree.
   */
  function DeleteNode(t: Tree, v: int, mode: TreeType): (r: Tree)
    ensures t.Nil? ==> r.Nil?
    ensures Keys(r) <= Keys(t)
  {
    match t
    case Nil => Nil
    case Node(l, x, rt) =>
      if v < x then Rebalanced(Node(DeleteNode(l, v, mode), x, rt), mode)
      else if v > x then Rebalanced(Node(l, x, DeleteNode(rt, v, mode)), mode)
      else if l.Nil? then rt
      else if rt.Nil? then l
      else
        var m := Leftmost(rt).value;
        LeftmostInKeys(rt);
        Rebalanced(Node(l, m, DeleteNode(rt, m, mode)), mode)
  }

  lemma {:induction false} LeftmostInKeys(t: Tree)
    requires t.Node?
    ensures Leftmost(t).value in Keys(t)
  {
    if t.left.Node? {
      LeftmostInKeys(t.left);
    }
  }

  /** On a search tree, deletion removes exactly the given key and leaves a search tree. */
  lemma {:induction false} DeleteNodeSpec(t: Tree, v: int, mode: TreeType)
    requires SearchTree(t)
    ensures Keys(DeleteNode(t, v, mode)) == Keys(t) - {v}
    ensures SearchTree(DeleteNode(t, v, mode))
  {
    match t
    case Nil =>
    case Node(l, x, rt) =>
      if v < x {
        DeleteNodeSpec(l, v, mode);
        DeletedLeft(l, x, rt, DeleteNode(l, v, mode), v, mode);
      } else if v > x {
        DeleteNodeSpec(rt, v, mode);
        DeletedRight(l, x, rt, DeleteNode(rt, v, mode), v, mode);
      } else if l.Node? && rt.Node? {
        var m := Leftmost(rt).value;
        SearchTreeIsOrdered(rt);
        LeftmostIsLeast(rt);
        DeleteNodeSpec(rt, m, mode);
        DeletedSuccessor(l, x, rt, m, DeleteNode(rt, m, mode), mode);
      }
  }

  /** Deleting a smaller key in the left subtree. */
  lemma DeletedLeft(l: Tree, x: int, rt: Tree, l2: Tree, v: int, mode: TreeType)
    requires SearchTree(Node(l, x, rt)) && v < x
    requires SearchTree(l2) && Keys(l2) == Keys(l) - {v}
    ensures Keys(Rebalanced(Node(l2, x, rt), mode)) == Keys(Node(l, x, rt)) - {v}
    ensures SearchTree(Rebalanced(Node(l2, x, rt), mode))
  {
    RebalancedSpec(Node(l2, x, rt), mode);
  }

  /** Deleting a larger key in the right subtree. */
  lemma DeletedRight(l: Tree, x: int, rt: Tree, r2: Tree, v: int, mode: TreeType)
    requires SearchTree(Node(l, x, rt)) && v > x
    requires SearchTree(r2) && Keys(r2) == Keys(rt) - {v}
    ensures Keys(Rebalanced(Node(l, x, r2), mode)) == Keys(Node(l, x, rt)) - {v}
    ensures SearchTree(Rebalanced(Node(l, x, r2), mode))
  {
    RebalancedSpec(Node(l, x, r2), mode);
  }

  /** The root of two subtrees replaced by the least key `m` of the right one, deleted there. */
  lemma DeletedSuccessor(l: Tree, x: int, rt: Tree, m: int, r2: Tree, mode: TreeType)
    requires SearchTree(Node(l, x, rt))
    requires m in Keys(rt) && (forall k :: k in Keys(rt) ==> m <= k)
    requires SearchTree(r2) && Keys(r2) == Keys(rt) - {m}
    ensures Keys(Rebalanced(Node(l, m, r2), mode)) == Keys(Node(l, x, rt)) - {x}
    ensures SearchTree(Rebalanced(Node(l, m, r2), mode))
  {
    var n := Node(l, m, r2);
    assert Keys(n) == Keys(Node(l, x, rt)) - {x};
    assert SearchTree(n);
    RebalancedSpec(n, mode);
  }

  lemma RebalancedSpec(t: Tree, mode: TreeType)
    requires t.Node? && SearchTree(t)
    ensures Keys(Rebalanced(t, mode)) == Keys(t) && SearchTree(Rebalanced(t, mode))
  {
    if mode == Avl {
      BalanceKeepsSearchTree(t);
    }
  }

  /** A node with two children takes its in-order successor: the least key above it. */
  lemma TwoChildrenTakeSuccessor(t: Tree)
    requires SearchTree(t) && t.Node? && t.left.Node? && t.right.Node?
    ensures DeleteNode(t, t.value, Bst).Node?
    ensures var s := DeleteNode(t, t.value, Bst).value;
      s in Keys(t) && t.value < s && forall k :: k in Keys(t) && t.value < k ==> s <= k
  {
    SearchTreeIsOrdered(t.right);
    LeftmostIsLeast(t.right);
  }
}
