/**
 * The node type shared by the tree components (`TreeNodeType`: a value and
 * two nullable children) as an immutable value, with the observations the
 * properties below are stated in.
 */
module TreeTypes {

  datatype Tree = Nil | Node(left: Tree, value: int, right: Tree)

  /** `TreeType`: how inserts choose a side and whether the tree is rebalanced. */
  datatype TreeType = Binary | Bst | Avl

  function Leaf(v: int): Tree
  {
    Node(Nil, v, Nil)
  }

  function Size(t: Tree): nat
  {
    match t
    case Nil => 0
    case Node(l, _, r) => Size(l) + 1 + Size(r)
  }

  function Keys(t: Tree): set<int>
  {
    match t
    case Nil => {}
    case Node(l, v, r) => Keys(l) + {v} + Keys(r)
  }

  /** The values with their multiplicities. */
  function Values(t: Tree): multiset<int>
  {
    match t
    case Nil => multiset{}
    case Node(l, v, r) => Values(l) + multiset{v} + Values(r)
  }

  /** In-order sequence of values: the reference definition for in-order traversal. */
  function InOrder(t: Tree): seq<int>
  {
    match t
    case Nil => []
    case Node(l, v, r) => InOrder(l) + [v] + InOrder(r)
  }

  function PreOrder(t: Tree): seq<int>
  {
    match t
    case Nil => []
    case Node(l, v, r) => [v] + PreOrder(l) + PreOrder(r)
  }

  function PostOrder(t: Tree): seq<int>
  {
    match t
    case Nil => []
    case Node(l, v, r) => PostOrder(l) + PostOrder(r) + [v]
  }

  /** `getHeight`: 0 for `null`, one more than the taller child otherwise. */
  function Height(t: Tree): (h: nat)
    ensures h == 0 <==> t.Nil?
  {
    match t
    case Nil => 0
    case Node(l, _, r) => 1 + (if Height(l) >= Height(r) then Height(l) else Height(r))
  }

  /** The order `insertNode` keeps outside "binary" mode: smaller keys go left, equal and larger go right. */
  predicate Ordered(t: Tree)
  {
    match t
    case Nil => true
    case Node(l, v, r) =>
      Ordered(l) && Ordered(r)
      && (forall k :: k in Keys(l) ==> k < v)
      && (forall k :: k in Keys(r) ==> v <= k)
  }

  /** A binary search tree with distinct keys. */
  predicate SearchTree(t: Tree)
  {
    match t
    case Nil => true
    case Node(l, v, r) =>
      SearchTree(l) && SearchTree(r)
      && (forall k :: k in Keys(l) ==> k < v)
      && (forall k :: k in Keys(r) ==> v < k)
  }

  lemma {:induction false} SearchTreeIsOrdered(t: Tree)
    requires SearchTree(t)
    ensures Ordered(t)
  {
    if t.Node? {
      SearchTreeIsOrdered(t.left);
      SearchTreeIsOrdered(t.right);
    }
  }

  /** The traversal orders list each node exactly once: they are rearrangements of the values. */
  lemma OrdersListEveryNode(t: Tree)
    ensures multiset(InOrder(t)) == Values(t) && multiset(PreOrder(t)) == Values(t) && multiset(PostOrder(t)) == Values(t)
    ensures |InOrder(t)| == Size(t) && |PreOrder(t)| == Size(t) && |PostOrder(t)| == Size(t)
  {
    InOrderValues(t);
    PreOrderValues(t);
    PostOrderValues(t);
  }

  lemma {:induction false} InOrderValues(t: Tree)
    ensures multiset(InOrder(t)) == Values(t) && |InOrder(t)| == Size(t)
  {
    if t.Node? {
      InOrderValues(t.left);
      InOrderValues(t.right);
      var l, r := InOrder(t.left), InOrder(t.right);
      assert multiset(l + [t.value] + r) == multiset(l) + multiset{t.value} + multiset(r);
    }
  }

  lemma {:induction false} PreOrderValues(t: Tree)
    ensures multiset(PreOrder(t)) == Values(t) && |PreOrder(t)| == Size(t)
  {
    if t.Node? {
      PreOrderValues(t.left);
      PreOrderValues(t.right);
      var l, r := PreOrder(t.left), PreOrder(t.right);
      assert multiset([t.value] + l + r) == multiset{t.value} + multiset(l) + multiset(r);
    }
  }

  lemma {:induction false} PostOrderValues(t: Tree)
    ensures multiset(PostOrder(t)) == Values(t) && |PostOrder(t)| == Size(t)
  {
    if t.Node? {
      PostOrderValues(t.left);
      PostOrderValues(t.right);
      var l, r := PostOrder(t.left), PostOrder(t.right);
      assert multiset(l + r + [t.value]) == multiset(l) + multiset(r) + multiset{t.value};
    }
  }

  lemma {:induction false} KeysOfValues(t: Tree)
    ensures forall k :: k in Keys(t) <==> k in Values(t)
    ensures |Values(t)| == Size(t)
  {
    if t.Node? {
      KeysOfValues(t.left);
      KeysOfValues(t.right);
    }
  }

  /** Every entry of the in-order sequence is a key of the tree. */
  lemma {:induction false} InOrderKeys(t: Tree)
    ensures forall i :: 0 <= i < |InOrder(t)| ==> InOrder(t)[i] in Keys(t)
  {
    if t.Node? {
      InOrderKeys(t.left);
      InOrderKeys(t.right);
      var l, r := InOrder(t.left), InOrder(t.right);
      forall i | 0 <= i < |InOrder(t)| ensures InOrder(t)[i] in Keys(t) {
        if i < |l| {
          assert InOrder(t)[i] == l[i];
        } else if i > |l| {
          assert InOrder(t)[i] == r[i - |l| - 1];
        }
      }
    }
  }

  /** In a search tree the in-order sequence is strictly increasing. */
  lemma {:induction false} SearchTreeInOrderSorted(t: Tree)
    requires SearchTree(t)
    ensures forall i, j :: 0 <= i < j < |InOrder(t)| ==> InOrder(t)[i] < InOrder(t)[j]
  {
    if t.Node? {
      SearchTreeInOrderSorted(t.left);
      SearchTreeInOrderSorted(t.right);
      InOrderKeys(t.left);
      InOrderKeys(t.right);
      var l, r := InOrder(t.left), InOrder(t.right);
      var s := InOrder(t);
      forall i, j | 0 <= i < j < |s| ensures s[i] < s[j] {
        if j < |l| {
          assert s[i] == l[i] && s[j] == l[j];
        } else if i > |l| {
          assert s[i] == r[i - |l| - 1] && s[j] == r[j - |l| - 1];
        } else {
          assert i < |l| ==> s[i] == l[i] && s[i] in Keys(t.left);
          assert i == |l| ==> s[i] == t.value;
          assert j == |l| ==> s[j] == t.value;
          assert j > |l| ==> s[j] == r[j - |l| - 1] && s[j] in Keys(t.right);
        }
      }
    }
  }
}
